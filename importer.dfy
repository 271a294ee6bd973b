/**
 * bec_to_hex_list of lib/importer.py: decode a boundary-edges code by a
 * walk on the vertices of the hexagonal lattice. Each unit step may record
 * a crossing of a row of hexagons; afterwards every row's crossings are
 * sorted and paired, and each pair (left, right) contributes the hexagons
 * left .. right - 1 of that row.
 */
module Importer {
  import opened Wrappers

  /** int(c) on a character that is not a digit, and the failed pairing assertion. */
  datatype DecodeError = NotADigit(c: char) | OddCrossings(row: int)

  /** The unit steps from a male vertex, by direction. */
  const MaleNeigh: seq<(int, int)> := [(0, 1), (1, 0), (-1, 0)]

  /** The unit steps from a female vertex, by direction. */
  const FemaleNeigh: seq<(int, int)> := [(1, 0), (0, -1), (-1, 0)]

  /** A vertex is male when its coordinates have the same parity. */
  predicate IsMale(vx: int, vy: int)
    ensures IsMale(vx, vy) <==> (vx - vy) % 2 == 0
  {
    (vx + vy) % 2 == 0
  }

  /**
   * The state of the walk: position, direction, and the crossings recorded
   * per row (vert_lines) with the rows in the order they were first met,
   * which is the order the dictionary yields them in.
   */
  datatype Walker = Walker(vx: int, vy: int, dir: int, lines: map<int, seq<int>>, rows: seq<int>)

  const Start := Walker(0, 0, 0, map[], [])

  predicate Distinct(s: seq<int>)
  {
    forall i, j :: 0 <= i < j < |s| ==> s[i] != s[j]
  }

  /** The direction is one of 0, 1, 2 and the rows listed are exactly the keys, once each. */
  ghost predicate WalkerOk(w: Walker)
  {
    && 0 <= w.dir < 3
    && (forall r :: r in w.lines <==> r in w.rows)
    && Distinct(w.rows)
  }

  /** Append column hx to the crossings of row hy, opening the row if it is new. */
  function Record(w: Walker, hy: int, hx: int): (r: Walker)
    requires WalkerOk(w)
    ensures WalkerOk(r)
    ensures hy in r.lines && r.lines[hy] == (if hy in w.lines then w.lines[hy] else []) + [hx]
    ensures forall y :: y != hy ==> (y in r.lines <==> y in w.lines)
    ensures forall y :: y != hy && y in w.lines ==> r.lines[y] == w.lines[y]
    ensures r.vx == w.vx && r.vy == w.vy && r.dir == w.dir
  {
    if hy !in w.lines then
      w.(lines := w.lines[hy := [hx]], rows := w.rows + [hy])
    else
      w.(lines := w.lines[hy := w.lines[hy] + [hx]])
  }

  /** Whether a unit step from w records a crossing. */
  predicate Crosses(w: Walker)
  {
    if IsMale(w.vx, w.vy) then w.dir == 0 else w.dir == 1
  }

  /** The crossing a unit step from w records, if any: the hexagon it passes on its left. */
  function Mark(w: Walker): (r: Walker)
    requires WalkerOk(w)
    ensures WalkerOk(r) && r.vx == w.vx && r.vy == w.vy && r.dir == w.dir
    ensures !Crosses(w) ==> r == w
  {
    if IsMale(w.vx, w.vy) then
      if w.dir == 0 then Record(w, w.vy, (w.vx - w.vy) / 2) else w
    else
      if w.dir == 1 then Record(w, w.vy - 1, (w.vx - w.vy + 1) / 2) else w
  }

  /** One unit step of the walk: record the crossing, if any, then move (see StepMoves). */
  function Step(w: Walker): (r: Walker)
    requires WalkerOk(w)
    ensures WalkerOk(r)
    ensures r.lines == Mark(w).lines && r.rows == Mark(w).rows
  {
    var w1 := Mark(w);
    if IsMale(w.vx, w.vy) then
      w1.(vx := w.vx + MaleNeigh[w.dir].0, vy := w.vy + MaleNeigh[w.dir].1)
    else
      w1.(vx := w.vx + FemaleNeigh[w.dir].0, vy := w.vy + FemaleNeigh[w.dir].1, dir := (w.dir + 1) % 3)
  }

  /**
   * A unit step moves to a lattice neighbour, so the parity of the vertex
   * alternates; a step from a female vertex turns the direction forward,
   * one from a male vertex keeps it; and the crossings change only on the
   * two crossing steps (see StepCounts).
   */
  lemma StepMoves(w: Walker)
    requires WalkerOk(w)
    ensures var r := Step(w);
      && -1 <= r.vx - w.vx <= 1 && -1 <= r.vy - w.vy <= 1 && (r.vx == w.vx) != (r.vy == w.vy)
      && IsMale(r.vx, r.vy) != IsMale(w.vx, w.vy)
      && r.dir == (if IsMale(w.vx, w.vy) then w.dir else (w.dir + 1) % 3)
      && (!Crosses(w) ==> r.lines == w.lines && r.rows == w.rows)
  {
  }

  /** n unit steps. */
  function Steps(w: Walker, n: nat): (r: Walker)
    requires WalkerOk(w)
    ensures WalkerOk(r)
  {
    if n == 0 then w else Step(Steps(w, n - 1))
  }

  function DigitValue(c: char): nat
    requires '0' <= c <= '9'
  {
    c as int - '0' as int
  }

  /** The walk over the digits of code, failing at the first character that is not a digit. */
  function Walk(code: string): (r: Result<Walker, DecodeError>)
    ensures r.Ok? ==> WalkerOk(r.value)
    ensures r.Err? ==> r.error.NotADigit? && r.error.c in code && !('0' <= r.error.c <= '9')
  {
    if code == [] then Ok(Start)
    else
      match Walk(code[..|code| - 1])
      case Err(e) => Err(e)
      case Ok(w) =>
        var c := code[|code| - 1];
        if '0' <= c <= '9' then
          var w' := Steps(w, DigitValue(c));
          Ok(w'.(dir := (w'.dir - 1 + 3) % 3))
        else Err(NotADigit(c))
  }

  /*
   * Sorting and pairing.
   */

  predicate Sorted(s: seq<int>)
  {
    forall i, j :: 0 <= i < j < |s| ==> s[i] <= s[j]
  }

  /** x placed before the first element of s not below it. */
  function Insert(x: int, s: seq<int>): (r: seq<int>)
    ensures |r| == |s| + 1 && multiset(r) == multiset(s) + multiset{x}
  {
    if s == [] || x <= s[0] then [x] + s
    else
      assert s == [s[0]] + s[1..];
      [s[0]] + Insert(x, s[1..])
  }

  /** list.sort() on a list of integers: insertion sort. */
  function Sort(s: seq<int>): (r: seq<int>)
    ensures |r| == |s| && multiset(r) == multiset(s)
  {
    if s == [] then []
    else
      assert s == [s[0]] + s[1..];
      Insert(s[0], Sort(s[1..]))
  }

  /** The hexagons (hy, k) for left <= k < right. */
  function Range(hy: int, left: int, right: int): (r: seq<(int, int)>)
    ensures |r| == if left < right then right - left else 0
    ensures forall i :: 0 <= i < |r| ==> r[i] == (hy, left + i)
    decreases right - left
  {
    if right <= left then [] else Range(hy, left, right - 1) + [(hy, right - 1)]
  }

  /** The hexagons of row hy between consecutive pairs lst[0], lst[1], then lst[2], lst[3], and so on. */
  function Pairs(hy: int, lst: seq<int>): (r: seq<(int, int)>)
    ensures forall p :: p in r ==> p.0 == hy
  {
    if |lst| < 2 then [] else Range(hy, lst[0], lst[1]) + Pairs(hy, lst[2..])
  }

  /** The rows in order, each sorted and paired; a row with an odd number of crossings fails. */
  function Fill(lines: map<int, seq<int>>, rows: seq<int>): (r: Result<seq<(int, int)>, DecodeError>)
    requires forall r :: r in rows ==> r in lines
    ensures r.Ok? ==> forall p :: p in r.value ==> p.0 in rows
    ensures r.Err? ==> r.error.OddCrossings? && r.error.row in rows && |lines[r.error.row]| % 2 != 0
  {
    if rows == [] then Ok([])
    else
      var hy := rows[|rows| - 1];
      match Fill(lines, rows[..|rows| - 1])
      case Err(e) => Err(e)
      case Ok(h) =>
        var lst := Sort(lines[hy]);
        if |lst| % 2 != 0 then Err(OddCrossings(hy)) else Ok(h + Pairs(hy, lst))
  }

  /** What bec_to_hex_list returns, with benzene as the exception. */
  function Decode(bec: string): (r: Result<seq<(int, int)>, DecodeError>)
    ensures r.Err? && r.error.NotADigit? ==> r.error.c in bec && !('0' <= r.error.c <= '9')
    ensures r.Err? && r.error.OddCrossings? ==> bec != "6" && Walk(bec).Ok?
  {
    if bec == "6" then Ok([(0, 0)])
    else
      match Walk(bec)
      case Err(e) => Err(e)
      case Ok(w) => Fill(w.lines, w.rows)
  }

  /*
   * The decoder.
   */

  /** lib/importer.py: bec_to_hex_list. */
  method BecToHexList(bec: string) returns (r: Result<seq<(int, int)>, DecodeError>)
    ensures r == Decode(bec)
  {
    if bec == "6" {
      return Ok([(0, 0)]);
    }
    var lines: map<int, seq<int>> := map[];
    var rows: seq<int> := [];
    var vx, vy := 0, 0;
    var dir := 0;
    for ci := 0 to |bec|
      invariant Walk(bec[..ci]) == Ok(Walker(vx, vy, dir, lines, rows))
    {
      var c := bec[ci];
      assert bec[..ci + 1][..ci] == bec[..ci];
      if !('0' <= c <= '9') {
        WalkErrorPersists(bec, ci + 1);
        return Err(NotADigit(c));
      }
      vx, vy, dir, lines, rows := WalkRun(vx, vy, dir, lines, rows, DigitValue(c));
      dir := (dir - 1 + 3) % 3;
    }
    assert bec[..|bec|] == bec;
    r := FillRows(lines, rows);
  }

  /** The inner loop of bec_to_hex_list: the unit steps of one digit. */
  method WalkRun(vx0: int, vy0: int, dir0: int, lines0: map<int, seq<int>>, rows0: seq<int>, n: nat)
    returns (vx: int, vy: int, dir: int, lines: map<int, seq<int>>, rows: seq<int>)
    requires WalkerOk(Walker(vx0, vy0, dir0, lines0, rows0))
    ensures Walker(vx, vy, dir, lines, rows) == Steps(Walker(vx0, vy0, dir0, lines0, rows0), n)
  {
    vx, vy, dir, lines, rows := vx0, vy0, dir0, lines0, rows0;
    for i := 0 to n
      invariant Walker(vx, vy, dir, lines, rows) == Steps(Walker(vx0, vy0, dir0, lines0, rows0), i)
    {
      vx, vy, dir, lines, rows := UnitStep(vx, vy, dir, lines, rows);
    }
  }

  /** The body of the inner loop: one unit step, recording a crossing on the two crossing steps. */
  method UnitStep(vx0: int, vy0: int, dir0: int, lines0: map<int, seq<int>>, rows0: seq<int>)
    returns (vx: int, vy: int, dir: int, lines: map<int, seq<int>>, rows: seq<int>)
    requires WalkerOk(Walker(vx0, vy0, dir0, lines0, rows0))
    ensures Walker(vx, vy, dir, lines, rows) == Step(Walker(vx0, vy0, dir0, lines0, rows0))
  {
    ghost var w := Walker(vx0, vy0, dir0, lines0, rows0);
    vx, vy, dir, lines, rows := vx0, vy0, dir0, lines0, rows0;
    if (vx + vy) % 2 == 0 {
      if dir == 0 {
        lines, rows := RecordCrossing(vx, vy, dir, lines, rows, vy, (vx - vy) / 2);
      }
      assert Walker(vx, vy, dir, lines, rows) == Mark(w);
      vx := vx + MaleNeigh[dir].0;
      vy := vy + MaleNeigh[dir].1;
    } else {
      if dir == 1 {
        lines, rows := RecordCrossing(vx, vy, dir, lines, rows, vy - 1, (vx - vy + 1) / 2);
      }
      assert Walker(vx, vy, dir, lines, rows) == Mark(w);
      vx := vx + FemaleNeigh[dir].0;
      vy := vy + FemaleNeigh[dir].1;
      dir := (dir + 1) % 3;
    }
  }

  /** Append column hx to the list of row hy, opening the row if it is new. */
  method RecordCrossing(vx: int, vy: int, dir: int, lines0: map<int, seq<int>>, rows0: seq<int>, hy: int, hx: int)
    returns (lines: map<int, seq<int>>, rows: seq<int>)
    requires WalkerOk(Walker(vx, vy, dir, lines0, rows0))
    ensures Walker(vx, vy, dir, lines, rows) == Record(Walker(vx, vy, dir, lines0, rows0), hy, hx)
  {
    if hy !in lines0 {
      lines := lines0[hy := [hx]];
      rows := rows0 + [hy];
    } else {
      lines := lines0[hy := lines0[hy] + [hx]];
      rows := rows0;
    }
  }

  /** The second half of bec_to_hex_list: sort and pair every row. */
  method FillRows(lines: map<int, seq<int>>, rows: seq<int>) returns (r: Result<seq<(int, int)>, DecodeError>)
    requires forall y :: y in rows ==> y in lines
    ensures r == Fill(lines, rows)
  {
    var hexList: seq<(int, int)> := [];
    for ri := 0 to |rows|
      invariant Fill(lines, rows[..ri]) == Ok(hexList)
    {
      var hy := rows[ri];
      assert rows[..ri + 1][..ri] == rows[..ri];
      var lst := Sort(lines[hy]);
      SortSortsAndPermutes(lines[hy]);
      if |lst| % 2 != 0 {
        FillErrorPersists(lines, rows, ri + 1);
        return Err(OddCrossings(hy));
      }
      var emitted := PairRow(hy, lst);
      hexList := hexList + emitted;
    }
    assert rows[..|rows|] == rows;
    r := Ok(hexList);
  }

  /** The pair loop over one sorted row of even length. */
  method PairRow(hy: int, lst: seq<int>) returns (out: seq<(int, int)>)
    requires Sorted(lst) && |lst| % 2 == 0
    ensures out == Pairs(hy, lst)
  {
    out := [];
    var i := 0;
    while i < |lst| - 1
      invariant 0 <= i <= |lst| && i % 2 == 0
      invariant out == Pairs(hy, lst[..i])
    {
      var left, right := lst[i], lst[i + 1];
      var run := EmitRange(hy, left, right);
      PairsStep(hy, lst, i);
      out := out + run;
      i := i + 2;
    }
    assert lst[..i] == lst;
  }

  /** for k in range(left, right): append (hy, k). */
  method EmitRange(hy: int, left: int, right: int) returns (out: seq<(int, int)>)
    ensures out == Range(hy, left, right)
  {
    out := [];
    var k := left;
    while k < right
      invariant left <= k && (k == left || k <= right)
      invariant out == Range(hy, left, k)
      decreases right - k
    {
      out := out + [(hy, k)];
      k := k + 1;
    }
  }

  /*
   * Lemmas.
   */

  /** A walk that fails on a prefix fails with the same error on the whole code. */
  lemma {:induction false} WalkErrorPersists(code: string, n: nat)
    requires n <= |code| && Walk(code[..n]).Err?
    ensures Walk(code) == Walk(code[..n])
    decreases |code| - n
  {
    if n < |code| {
      assert code[..|code| - 1][..n] == code[..n];
      WalkErrorPersists(code[..|code| - 1], n);
    } else {
      assert code[..n] == code;
    }
  }

  /** Filling that fails on a prefix of the rows fails with the same error on all of them. */
  lemma {:induction false} FillErrorPersists(lines: map<int, seq<int>>, rows: seq<int>, n: nat)
    requires forall y :: y in rows ==> y in lines
    requires n <= |rows| && Fill(lines, rows[..n]).Err?
    ensures Fill(lines, rows) == Fill(lines, rows[..n])
    decreases |rows| - n
  {
    if n < |rows| {
      assert rows[..|rows| - 1][..n] == rows[..n];
      FillErrorPersists(lines, rows[..|rows| - 1], n);
    } else {
      assert rows[..n] == rows;
    }
  }

  /** Pairing one more pair extends the pairing of the prefix. */
  lemma PairsStep(hy: int, lst: seq<int>, i: nat)
    requires i % 2 == 0 && i + 1 < |lst|
    ensures Pairs(hy, lst[..i + 2]) == Pairs(hy, lst[..i]) + Range(hy, lst[i], lst[i + 1])
  {
    PairsAppend(hy, lst[..i], lst[i], lst[i + 1]);
    assert lst[..i + 2] == lst[..i] + [lst[i], lst[i + 1]];
  }

  lemma {:induction false} PairsAppend(hy: int, s: seq<int>, a: int, b: int)
    requires |s| % 2 == 0
    ensures Pairs(hy, s + [a, b]) == Pairs(hy, s) + Range(hy, a, b)
  {
    if |s| == 0 {
      assert s + [a, b] == [a, b];
      assert [a, b][2..] == [];
    } else {
      var t := s + [a, b];
      PairsAppend(hy, s[2..], a, b);
      assert t[0] == s[0] && t[1] == s[1] && t[2..] == s[2..] + [a, b];
      var first := Range(hy, s[0], s[1]);
      assert Pairs(hy, t) == first + (Pairs(hy, s[2..]) + Range(hy, a, b));
      assert Pairs(hy, s) == first + Pairs(hy, s[2..]);
    }
  }

  /** Insertion into a sorted sequence keeps it sorted. */
  lemma {:induction false} InsertSorted(x: int, s: seq<int>)
    requires Sorted(s)
    ensures Sorted(Insert(x, s))
    ensures |Insert(x, s)| == |s| + 1
    ensures forall y :: y in Insert(x, s) <==> y == x || y in s
  {
    if s != [] && x > s[0] {
      InsertSorted(x, s[1..]);
      var r := Insert(x, s[1..]);
      assert forall y :: y in s[1..] ==> s[0] <= y;
      assert forall j :: 0 <= j < |r| ==> s[0] <= r[j] by {
        forall j | 0 <= j < |r| ensures s[0] <= r[j] {
          assert r[j] in r;
        }
      }
      assert Insert(x, s) == [s[0]] + r;
    } else {
      assert forall j :: 0 <= j < |s| ==> x <= s[j];
    }
  }

  /** The sort returns a sorted permutation of its input. */
  lemma {:induction false} SortSortsAndPermutes(s: seq<int>)
    ensures Sorted(Sort(s)) && multiset(Sort(s)) == multiset(s) && |Sort(s)| == |s|
  {
    if s != [] {
      SortSortsAndPermutes(s[1..]);
      InsertSorted(s[0], Sort(s[1..]));
    }
  }

  /** The walk succeeds exactly when every character of the code is a digit. */
  lemma {:induction false} WalkOkIff(code: string)
    ensures Walk(code).Ok? <==> forall i :: 0 <= i < |code| ==> '0' <= code[i] <= '9'
  {
    if code != [] {
      var init := code[..|code| - 1];
      WalkOkIff(init);
      assert forall i :: 0 <= i < |init| ==> init[i] == code[i];
    }
  }

  /** The sum of the digits: the number of unit steps of the walk. */
  function DigitSum(code: string): nat
    requires forall i :: 0 <= i < |code| ==> '0' <= code[i] <= '9'
  {
    if code == [] then 0 else DigitSum(code[..|code| - 1]) + DigitValue(code[|code| - 1])
  }

  /** The number of crossings recorded in the given rows. */
  function Crossings(lines: map<int, seq<int>>, rows: seq<int>): nat
    requires forall y :: y in rows ==> y in lines
  {
    if rows == [] then 0
    else
      var hy := rows[|rows| - 1];
      Crossings(lines, rows[..|rows| - 1]) + |lines[hy]|
  }

  ghost function Recorded(w: Walker): nat
    requires WalkerOk(w)
  {
    Crossings(w.lines, w.rows)
  }

  /** Rows other than hy do not see a change to row hy. */
  lemma {:induction false} CrossingsOther(lines: map<int, seq<int>>, rows: seq<int>, hy: int, l: seq<int>)
    requires forall y :: y in rows ==> y in lines
    requires hy !in rows
    ensures Crossings(lines[hy := l], rows) == Crossings(lines, rows)
  {
    if rows != [] {
      CrossingsOther(lines, rows[..|rows| - 1], hy, l);
      assert rows[|rows| - 1] in rows;
    }
  }

  /** Appending a column to row hy, listed once in rows, adds one crossing. */
  lemma {:induction false} CrossingsAppend(lines: map<int, seq<int>>, rows: seq<int>, hy: int, hx: int)
    requires forall y :: y in rows ==> y in lines
    requires Distinct(rows) && hy in rows
    ensures Crossings(lines[hy := lines[hy] + [hx]], rows) == Crossings(lines, rows) + 1
  {
    var init := rows[..|rows| - 1];
    var last := rows[|rows| - 1];
    var lines' := lines[hy := lines[hy] + [hx]];
    if last == hy {
      assert hy !in init by {
        forall i | 0 <= i < |init| ensures init[i] != hy {
          assert init[i] == rows[i];
        }
      }
      CrossingsOther(lines, init, hy, lines[hy] + [hx]);
    } else {
      assert hy in init by {
        var i :| 0 <= i < |rows| && rows[i] == hy;
        assert i < |rows| - 1 && init[i] == hy;
      }
      assert Distinct(init) by {
        forall i, j | 0 <= i < j < |init| ensures init[i] != init[j] {
          assert init[i] == rows[i] && init[j] == rows[j];
        }
      }
      CrossingsAppend(lines, init, hy, hx);
    }
  }

  /** Record adds one crossing, whether it opens a row or extends one. */
  lemma RecordCounts(w: Walker, hy: int, hx: int)
    requires WalkerOk(w)
    ensures Recorded(Record(w, hy, hx)) == Recorded(w) + 1
  {
    if hy !in w.lines {
      var lines' := w.lines[hy := [hx]];
      var rows' := w.rows + [hy];
      assert Record(w, hy, hx).lines == lines' && Record(w, hy, hx).rows == rows';
      assert rows'[..|rows'| - 1] == w.rows;
      assert hy !in w.rows;
      CrossingsOther(w.lines, w.rows, hy, [hx]);
      assert Crossings(lines', rows') == Crossings(lines', w.rows) + 1;
    } else {
      assert hy in w.rows;
      assert Record(w, hy, hx).lines == w.lines[hy := w.lines[hy] + [hx]] && Record(w, hy, hx).rows == w.rows;
      CrossingsAppend(w.lines, w.rows, hy, hx);
    }
  }

  lemma MarkCounts(w: Walker)
    requires WalkerOk(w)
    ensures Recorded(Mark(w)) == Recorded(w) + (if Crosses(w) then 1 else 0)
  {
    if IsMale(w.vx, w.vy) && w.dir == 0 {
      var hy, hx := w.vy, (w.vx - w.vy) / 2;
      assert Mark(w) == Record(w, hy, hx);
      RecordCounts(w, hy, hx);
    } else if !IsMale(w.vx, w.vy) && w.dir == 1 {
      var hy, hx := w.vy - 1, (w.vx - w.vy + 1) / 2;
      assert Mark(w) == Record(w, hy, hx);
      RecordCounts(w, hy, hx);
    } else {
      assert Mark(w) == w;
    }
  }

  /** Each unit step records at most one crossing, and exactly one on a crossing step. */
  lemma StepCounts(w: Walker)
    requires WalkerOk(w)
    ensures Recorded(Step(w)) == Recorded(w) + (if Crosses(w) then 1 else 0)
  {
    MarkCounts(w);
    assert Recorded(Step(w)) == Recorded(Mark(w));
  }

  /** n unit steps record at most n crossings. */
  lemma {:induction false} StepsCount(w: Walker, n: nat)
    requires WalkerOk(w)
    ensures Recorded(Steps(w, n)) <= Recorded(w) + n
  {
    if n > 0 {
      StepsCount(w, n - 1);
      LastStepCounts(w, n);
      var before, after := Recorded(Steps(w, n - 1)), Recorded(Steps(w, n));
      assert before <= Recorded(w) + (n - 1) && after <= before + 1;
    }
  }

  /** The last of n unit steps records at most one crossing. */
  lemma LastStepCounts(w: Walker, n: nat)
    requires WalkerOk(w) && n > 0
    ensures Recorded(Steps(w, n)) <= Recorded(Steps(w, n - 1)) + 1
  {
    var prev := Steps(w, n - 1);
    StepCounts(prev);
    assert Steps(w, n) == Step(prev);
  }

  /** The walk records at most one crossing per unit step, so at most the digit sum. */
  lemma {:induction false} WalkCount(code: string)
    requires forall i :: 0 <= i < |code| ==> '0' <= code[i] <= '9'
    ensures Walk(code).Ok? && Recorded(Walk(code).value) <= DigitSum(code)
  {
    if code != [] {
      var init := code[..|code| - 1];
      assert forall i :: 0 <= i < |init| ==> init[i] == code[i];
      WalkCount(init);
      var w := Walk(init).value;
      var w' := Steps(w, DigitValue(code[|code| - 1]));
      StepsCount(w, DigitValue(code[|code| - 1]));
      assert Walk(code) == Ok(w'.(dir := (w'.dir - 1 + 3) % 3));
    }
  }

  /** k lies in one of the intervals [lst[2j], lst[2j + 1]). */
  ghost predicate InPairs(lst: seq<int>, k: int)
  {
    exists j :: 0 <= j && 2 * j + 1 < |lst| && lst[2 * j] <= k < lst[2 * j + 1]
  }

  lemma {:induction false} RangeMembers(hy: int, left: int, right: int)
    ensures forall y, k :: (y, k) in Range(hy, left, right) <==> y == hy && left <= k < right
    decreases right - left
  {
    if left < right {
      RangeMembers(hy, left, right - 1);
    }
  }

  /** The intervals of lst are its first interval and the intervals of the rest. */
  lemma InPairsCons(lst: seq<int>, k: int)
    requires |lst| >= 2
    ensures InPairs(lst, k) <==> lst[0] <= k < lst[1] || InPairs(lst[2..], k)
  {
    if InPairs(lst, k) && !(lst[0] <= k < lst[1]) {
      var j :| 0 <= j && 2 * j + 1 < |lst| && lst[2 * j] <= k < lst[2 * j + 1];
      assert j > 0;
      assert lst[2..][2 * (j - 1)] == lst[2 * j] && lst[2..][2 * (j - 1) + 1] == lst[2 * j + 1];
    }
    if InPairs(lst[2..], k) {
      var j :| 0 <= j && 2 * j + 1 < |lst[2..]| && lst[2..][2 * j] <= k < lst[2..][2 * j + 1];
      assert lst[2 * (j + 1)] <= k < lst[2 * (j + 1) + 1];
    }
    if lst[0] <= k < lst[1] {
      assert lst[2 * 0] <= k < lst[2 * 0 + 1];
    }
  }

  /** The hexagons of a row are those of its pairs' intervals. */
  lemma {:induction false} PairsMembers(hy: int, lst: seq<int>)
    ensures forall y, k :: (y, k) in Pairs(hy, lst) <==> y == hy && InPairs(lst, k)
  {
    if |lst| >= 2 {
      PairsMembers(hy, lst[2..]);
      RangeMembers(hy, lst[0], lst[1]);
      forall k ensures InPairs(lst, k) <==> lst[0] <= k < lst[1] || InPairs(lst[2..], k) {
        InPairsCons(lst, k);
      }
    } else {
      assert forall k :: !InPairs(lst, k);
    }
  }

  /** Filling fails exactly when some row has an odd number of crossings. */
  lemma {:induction false} FillOkIff(lines: map<int, seq<int>>, rows: seq<int>)
    requires forall y :: y in rows ==> y in lines
    ensures Fill(lines, rows).Ok? <==> forall y :: y in rows ==> |lines[y]| % 2 == 0
  {
    if rows != [] {
      var init := rows[..|rows| - 1];
      FillOkIff(lines, init);
      var hy := rows[|rows| - 1];
      SortSortsAndPermutes(lines[hy]);
      assert forall y :: y in rows <==> y in init || y == rows[|rows| - 1];
    }
  }

  /**
   * The hexagons emitted are exactly the (row, k) with k inside one of the
   * intervals between consecutive sorted crossings of that row.
   */
  lemma {:induction false} FillMembers(lines: map<int, seq<int>>, rows: seq<int>)
    requires forall y :: y in rows ==> y in lines
    requires Fill(lines, rows).Ok?
    ensures forall y, k :: (y, k) in Fill(lines, rows).value <==> y in rows && InPairs(Sort(lines[y]), k)
  {
    if rows != [] {
      var init := rows[..|rows| - 1];
      var hy := rows[|rows| - 1];
      FillMembers(lines, init);
      PairsMembers(hy, Sort(lines[hy]));
      assert forall y :: y in rows <==> y in init || y == hy;
    }
  }

  /**
   * Decoding fails exactly when the code (other than "6") has a character
   * that is not a digit or leaves a row with an odd number of crossings;
   * otherwise it emits exactly the hexagons between paired crossings.
   */
  lemma DecodeMeaning(bec: string)
    requires bec != "6"
    ensures (forall i :: 0 <= i < |bec| ==> '0' <= bec[i] <= '9') <==> Walk(bec).Ok?
    ensures Walk(bec).Ok? ==>
              var w := Walk(bec).value;
              && (Decode(bec).Ok? <==> forall y :: y in w.rows ==> |w.lines[y]| % 2 == 0)
              && (Decode(bec).Ok? ==>
                    forall y, k :: (y, k) in Decode(bec).value <==> y in w.rows && InPairs(Sort(w.lines[y]), k))
  {
    WalkOkIff(bec);
    if Walk(bec).Ok? {
      var w := Walk(bec).value;
      FillOkIff(w.lines, w.rows);
      if Decode(bec).Ok? {
        FillMembers(w.lines, w.rows);
      }
    }
  }
}
