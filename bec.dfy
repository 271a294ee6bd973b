/**
 * The boundary-edges code of Hansen et al. (J. Mol. Struct. (Theochem) 363
 * (1996) 237-247) as Benzenoid.boundary_edges_code computes it from the
 * degree string of the perimeter vertices: cut the cyclic degree string at
 * its degree-3 vertices, write each run as its length plus one in decimal,
 * and take the lexicographically largest of all rotations of that raw code
 * and of its reversal.
 */
module Bec {

  /** The character of a decimal digit. */
  function Digit(d: nat): char
    requires d < 10
  {
    ('0' as int + d) as char
  }

  /** str(n) for a natural number: its decimal digits, most significant first. */
  function Decimal(n: nat): (s: string)
    ensures 1 <= |s|
    ensures n < 10 <==> |s| == 1
    ensures AllDigits(s)
  {
    if n < 10 then [Digit(n)] else Decimal(n / 10) + [Digit(n % 10)]
  }

  predicate AllDigits(s: string)
  {
    forall i :: 0 <= i < |s| ==> '0' <= s[i] <= '9'
  }

  /** int(s) for a string of decimal digits. */
  function DecimalValue(s: string): nat
    requires AllDigits(s)
  {
    if s == [] then 0
    else
      DecimalValue(s[..|s| - 1]) * 10 + (s[|s| - 1] as int - '0' as int)
  }

  /** Reading back what str wrote gives the number. */
  lemma {:induction false} DecimalRoundTrip(n: nat)
    ensures DecimalValue(Decimal(n)) == n
  {
    if n >= 10 {
      var s := Decimal(n);
      assert s[..|s| - 1] == Decimal(n / 10);
      DecimalRoundTrip(n / 10);
    }
  }

  /** The number of occurrences of c in s. */
  function Count(s: string, c: char): nat
  {
    if s == [] then 0 else (if s[0] == c then 1 else 0) + Count(s[1..], c)
  }

  lemma {:induction false} CountConcat(a: string, b: string, c: char)
    ensures Count(a + b, c) == Count(a, c) + Count(b, c)
  {
    if a == [] {
      assert a + b == b;
    } else {
      assert (a + b)[0] == a[0] && (a + b)[1..] == a[1..] + b;
      CountConcat(a[1..], b, c);
    }
  }

  lemma {:induction false} CountZero(s: string, c: char)
    ensures Count(s, c) == 0 <==> c !in s
  {
    if s != [] {
      CountZero(s[1..], c);
    }
  }

  /** s.split(sep): the pieces between the separators, empty pieces included. */
  function Split(s: string, sep: char): (r: seq<string>)
    ensures |r| == Count(s, sep) + 1
    ensures forall i :: 0 <= i < |r| ==> sep !in r[i]
  {
    if s == [] then [[]]
    else if s[0] == sep then [[]] + Split(s[1..], sep)
    else
      var t := Split(s[1..], sep);
      [[s[0]] + t[0]] + t[1..]
  }

  /** sep.join(pieces). */
  function Join(pieces: seq<string>, sep: char): string
    requires |pieces| > 0
  {
    if |pieces| == 1 then pieces[0] else pieces[0] + [sep] + Join(pieces[1..], sep)
  }

  /** Splitting and joining again gives the string back. */
  lemma {:induction false} SplitJoin(s: string, sep: char)
    ensures Join(Split(s, sep), sep) == s
  {
    if s != [] {
      SplitJoin(s[1..], sep);
      var t := Split(s[1..], sep);
      if s[0] != sep {
        var r := [[s[0]] + t[0]] + t[1..];
        if |t| > 1 {
          assert r[1..] == t[1..];
          assert Join(t, sep) == t[0] + [sep] + Join(t[1..], sep);
        }
      }
    }
  }

  /** The run lengths plus one, in decimal, concatenated. */
  function RunCode(segs: seq<string>): (r: string)
    ensures |r| >= |segs|
  {
    if segs == [] then [] else Decimal(|segs[0]| + 1) + RunCode(segs[1..])
  }

  /** The raw code of the degree string read after a degree-3 vertex. */
  function RawCode(rest: string): (r: string)
    ensures |r| >= 1
  {
    RunCode(Split(rest, '3'))
  }

  /** code[i:] + code[:i] */
  function Rotate(s: string, i: nat): (r: string)
    requires i <= |s|
    ensures |r| == |s|
  {
    s[i..] + s[..i]
  }

  /** code[::-1] */
  function Reverse(s: string): (r: string)
    ensures |r| == |s|
    ensures forall j :: 0 <= j < |s| ==> r[j] == s[|s| - 1 - j]
  {
    seq(|s|, j requires 0 <= j < |s| => s[|s| - 1 - j])
  }

  /** all_forms: every rotation of the code, then every rotation of its reversal. */
  function Forms(code: string): (r: seq<string>)
    ensures |r| == 2 * |code|
    ensures forall f :: f in r <==> IsForm(code, f)
  {
    var rev := Reverse(code);
    var fs := seq(|code|, i requires 0 <= i < |code| => Rotate(code, i))
            + seq(|code|, i requires 0 <= i < |code| => Rotate(rev, i));
    assert forall f :: IsForm(code, f) ==> f in fs by {
      forall f | IsForm(code, f) ensures f in fs {
        var i :| 0 <= i < |code| && (f == Rotate(code, i) || f == Rotate(rev, i));
        if f == Rotate(code, i) {
          assert fs[i] == f;
        } else {
          assert fs[|code| + i] == f;
        }
      }
    }
    fs
  }

  /** f is a rotation of the code or of its reversal. */
  ghost predicate IsForm(code: string, f: string)
  {
    exists i :: 0 <= i < |code| && (f == Rotate(code, i) || f == Rotate(Reverse(code), i))
  }

  /** Python's string order: by characters, a proper prefix first. */
  predicate LexLeq(a: string, b: string)
    ensures |a| <= |b| && a == b[..|a|] ==> LexLeq(a, b)
  {
    |a| == 0 || (|b| > 0 && (a[0] < b[0] || (a[0] == b[0] && LexLeq(a[1..], b[1..]))))
  }

  lemma {:induction false} LexLeqReflexive(a: string)
    ensures LexLeq(a, a)
  {
    if |a| > 0 {
      LexLeqReflexive(a[1..]);
    }
  }

  lemma {:induction false} LexLeqTotal(a: string, b: string)
    ensures LexLeq(a, b) || LexLeq(b, a)
  {
    if |a| > 0 && |b| > 0 && a[0] == b[0] {
      LexLeqTotal(a[1..], b[1..]);
    }
  }

  lemma {:induction false} LexLeqAntisymmetric(a: string, b: string)
    requires LexLeq(a, b) && LexLeq(b, a)
    ensures a == b
  {
    if |a| > 0 {
      LexLeqAntisymmetric(a[1..], b[1..]);
      assert a == [a[0]] + a[1..];
      assert b == [b[0]] + b[1..];
    }
  }

  lemma {:induction false} LexLeqTransitive(a: string, b: string, c: string)
    requires LexLeq(a, b) && LexLeq(b, c)
    ensures LexLeq(a, c)
  {
    if |a| > 0 && a[0] == b[0] && b[0] == c[0] {
      LexLeqTransitive(a[1..], b[1..], c[1..]);
    }
  }

  /** all_forms.sort(); all_forms[-1]: the largest form. */
  function Largest(forms: seq<string>): (r: string)
    requires |forms| > 0
    ensures r in forms
    ensures forall f :: f in forms ==> LexLeq(f, r)
  {
    if |forms| == 1 then LexLeqReflexive(forms[0]); forms[0]
    else
      var m := Largest(forms[1..]);
      if LexLeq(forms[0], m) then m
      else
        LexLeqTotal(forms[0], m);
        LexLeqReflexive(forms[0]);
        assert forall f :: f in forms[1..] ==> LexLeq(f, forms[0]) by {
          forall f | f in forms[1..] ensures LexLeq(f, forms[0]) {
            LexLeqTransitive(f, m, forms[0]);
          }
        }
        forms[0]
  }

  /** Two lists of forms with the same members have the same largest form. */
  lemma LargestOfSameMembers(a: seq<string>, b: seq<string>)
    requires |a| > 0 && |b| > 0
    requires forall f :: f in a <==> f in b
    ensures Largest(a) == Largest(b)
  {
    LexLeqAntisymmetric(Largest(a), Largest(b));
  }

  /** The canonical form of a raw code. */
  function Canon(code: string): (r: string)
    requires |code| > 0
    ensures IsForm(code, r)
    ensures forall f :: IsForm(code, f) ==> LexLeq(f, r)
  {
    Largest(Forms(code))
  }

  /** The position of the first occurrence of c (the while pos loop). */
  function FirstIndex(s: string, c: char): (i: nat)
    requires c in s
    ensures i < |s| && s[i] == c && c !in s[..i]
  {
    if s[0] == c then 0
    else
      assert c in s[1..];
      var j := FirstIndex(s[1..], c);
      assert s[..j + 1] == [s[0]] + s[1..][..j];
      j + 1
  }

  /** The cyclic degree string read from just after its first degree-3 vertex, without it. */
  function AfterFirstThree(degrees: string): (r: string)
    requires '3' in degrees
    ensures |r| == |degrees| - 1
  {
    var pos := FirstIndex(degrees, '3');
    degrees[pos + 1..] + degrees[..pos]
  }

  /** Benzenoid.boundary_edges_code on the degree string of the perimeter. */
  function Code(degrees: string): (r: string)
    ensures |r| >= 1
    ensures '3' in degrees ==> |r| >= Count(degrees, '3')
    ensures '3' in degrees && (forall s :: s in Split(AfterFirstThree(degrees), '3') ==> |s| <= 8) ==>
              |r| == Count(degrees, '3')
  {
    if '3' !in degrees then "6"
    else
      var raw := RawCode(AfterFirstThree(degrees));
      RawCodePieces(degrees);
      CanonCharacters(raw, '3');
      Canon(raw)
  }

  /**
   * The string part of Benzenoid.boundary_edges_code: the scan for the first
   * degree-3 vertex, the raw code, and the largest form.
   */
  method CodeOfDegrees(degrees: string) returns (code: string)
    ensures code == Code(degrees)
  {
    if '3' !in degrees {
      return "6";
    }
    var pos := 0;
    while degrees[pos] != '3'
      invariant 0 <= pos < |degrees|
      invariant '3' !in degrees[..pos]
      decreases |degrees| - pos
    {
      assert degrees[..pos + 1] == degrees[..pos] + [degrees[pos]];
      pos := pos + 1;
      if pos == |degrees| {
        assert false;
      }
    }
    FirstIsFirst(degrees, '3', pos);
    var raw := RawCode(degrees[pos + 1..] + degrees[..pos]);
    assert degrees[pos + 1..] + degrees[..pos] == AfterFirstThree(degrees);
    code := Largest(Forms(raw));
  }

  lemma FirstIsFirst(s: string, c: char, i: nat)
    requires i < |s| && s[i] == c && c !in s[..i]
    ensures FirstIndex(s, c) == i
  {
  }

  /*
   * Rotation and reversal.
   */

  lemma RotateIndex(s: string, k: nat, j: nat)
    requires k < |s| && j < |s|
    ensures Rotate(s, k)[j] == s[if k + j < |s| then k + j else k + j - |s|]
  {
  }

  lemma RotateRotate(s: string, k: nat, i: nat)
    requires k < |s| && i < |s|
    ensures Rotate(Rotate(s, k), i) == Rotate(s, if k + i < |s| then k + i else k + i - |s|)
  {
    var n := |s|;
    var m := if k + i < n then k + i else k + i - n;
    forall j | 0 <= j < n ensures Rotate(Rotate(s, k), i)[j] == Rotate(s, m)[j] {
      RotateIndex(Rotate(s, k), i, j);
      RotateIndex(s, m, j);
      var x := if i + j < n then i + j else i + j - n;
      RotateIndex(s, k, x);
    }
  }

  lemma ReverseRotate(s: string, k: nat)
    requires k < |s|
    ensures Reverse(Rotate(s, k)) == Rotate(Reverse(s), if k == 0 then 0 else |s| - k)
  {
    var n := |s|;
    var m := if k == 0 then 0 else n - k;
    forall j | 0 <= j < n ensures Reverse(Rotate(s, k))[j] == Rotate(Reverse(s), m)[j] {
      RotateIndex(s, k, n - 1 - j);
      RotateIndex(Reverse(s), m, j);
    }
  }

  lemma ReverseReverse(s: string)
    ensures Reverse(Reverse(s)) == s
  {
  }

  /** Rotating the raw code does not change its forms. */
  lemma FormsOfRotation(code: string, k: nat)
    requires k < |code|
    ensures forall f :: IsForm(Rotate(code, k), f) <==> IsForm(code, f)
  {
    forall f | IsForm(Rotate(code, k), f) ensures IsForm(code, f) {
      FormOfRotationIsForm(code, k, f);
    }
    var back := if k == 0 then 0 else |code| - k;
    RotateRotate(code, k, back);
    assert Rotate(Rotate(code, k), back) == code;
    forall f | IsForm(code, f) ensures IsForm(Rotate(code, k), f) {
      FormOfRotationIsForm(Rotate(code, k), back, f);
    }
  }

  /** The m-th rotation of the code and of its reversal are forms. */
  lemma RotationsAreForms(code: string, m: nat)
    requires m < |code|
    ensures IsForm(code, Rotate(code, m)) && IsForm(code, Rotate(Reverse(code), m))
  {
  }

  lemma FormOfRotationIsForm(code: string, k: nat, f: string)
    requires k < |code| && IsForm(Rotate(code, k), f)
    ensures IsForm(code, f)
  {
    var n := |code|;
    var c := Rotate(code, k);
    var i :| 0 <= i < n && (f == Rotate(c, i) || f == Rotate(Reverse(c), i));
    if f == Rotate(c, i) {
      RotateRotate(code, k, i);
      var m := if k + i < n then k + i else k + i - n;
      assert f == Rotate(code, m);
      RotationsAreForms(code, m);
    } else {
      ReverseRotate(code, k);
      var r := if k == 0 then 0 else n - k;
      RotateRotate(Reverse(code), r, i);
      var m := if r + i < n then r + i else r + i - n;
      assert f == Rotate(Reverse(code), m);
      RotationsAreForms(code, m);
    }
  }

  /** Reversing the raw code does not change its forms. */
  lemma FormsOfReversal(code: string)
    ensures forall f :: IsForm(Reverse(code), f) <==> IsForm(code, f)
  {
    ReverseReverse(code);
  }

  /** The canonical code is unchanged by rotating the raw code. */
  lemma CanonRotationInvariant(code: string, k: nat)
    requires k < |code|
    ensures Canon(Rotate(code, k)) == Canon(code)
  {
    FormsOfRotation(code, k);
    LargestOfSameMembers(Forms(Rotate(code, k)), Forms(code));
  }

  /** The canonical code is unchanged by reversing the raw code. */
  lemma CanonReversalInvariant(code: string)
    requires |code| > 0
    ensures Canon(Reverse(code)) == Canon(code)
  {
    FormsOfReversal(code);
    LargestOfSameMembers(Forms(Reverse(code)), Forms(code));
  }

  /** The canonical code has the length of the raw code and uses the same characters. */
  lemma CanonCharacters(code: string, c: char)
    requires |code| > 0
    ensures |Canon(code)| == |code|
    ensures c in Canon(code) <==> c in code
  {
    var f := Canon(code);
    assert IsForm(code, f);
    var i :| 0 <= i < |code| && (f == Rotate(code, i) || f == Rotate(Reverse(code), i));
    if f == Rotate(code, i) {
      RotationCharacters(code, i, c);
    } else {
      RotationCharacters(Reverse(code), i, c);
      ReverseCharacters(code, c);
    }
  }

  /** A rotation keeps the length and the characters. */
  lemma RotationCharacters(s: string, i: nat, c: char)
    requires i <= |s|
    ensures |Rotate(s, i)| == |s|
    ensures c in Rotate(s, i) <==> c in s
  {
    assert Rotate(s, i) == s[i..] + s[..i];
    assert s == s[..i] + s[i..];
  }

  /** A reversal keeps the characters. */
  lemma ReverseCharacters(s: string, c: char)
    ensures c in Reverse(s) <==> c in s
  {
    if c in s {
      var j :| 0 <= j < |s| && s[j] == c;
      assert Reverse(s)[|s| - 1 - j] == c;
    }
  }

  /**
   * The raw code has one piece per degree-3 vertex, and exactly one
   * character per degree-3 vertex when no run between them is longer than
   * eight.
   */
  lemma RawCodePieces(degrees: string)
    requires '3' in degrees
    ensures |Split(AfterFirstThree(degrees), '3')| == Count(degrees, '3')
    ensures var segs := Split(AfterFirstThree(degrees), '3');
            (forall i :: 0 <= i < |segs| ==> |segs[i]| <= 8) ==> |RawCode(AfterFirstThree(degrees))| == Count(degrees, '3')
  {
    var pos := FirstIndex(degrees, '3');
    assert degrees == degrees[..pos] + [degrees[pos]] + degrees[pos + 1..];
    CountConcat(degrees[..pos] + [degrees[pos]], degrees[pos + 1..], '3');
    CountConcat(degrees[..pos], [degrees[pos]], '3');
    CountConcat(degrees[pos + 1..], degrees[..pos], '3');
    var segs := Split(AfterFirstThree(degrees), '3');
    if forall i :: 0 <= i < |segs| ==> |segs[i]| <= 8 {
      ShortRuns(segs);
    }
  }

  lemma {:induction false} ShortRuns(segs: seq<string>)
    requires forall i :: 0 <= i < |segs| ==> |segs[i]| <= 8
    ensures |RunCode(segs)| == |segs|
  {
    if segs != [] {
      ShortRuns(segs[1..]);
    }
  }

  /**
   * The code is "6" exactly when no perimeter vertex has degree 3, provided
   * there are not exactly one such vertex (which no benzenoid perimeter has).
   */
  lemma CodeSixIffNoDegreeThree(degrees: string)
    requires Count(degrees, '3') != 1
    ensures Code(degrees) == "6" <==> '3' !in degrees
  {
    CountZero(degrees, '3');
    if '3' in degrees {
      RawCodePieces(degrees);
      CanonCharacters(RawCode(AfterFirstThree(degrees)), '6');
    }
  }

  /** is_convex: the code has no '1' exactly when the raw code has none. */
  lemma ConvexIffNoOneInRawCode(degrees: string)
    requires '3' in degrees
    ensures '1' in Code(degrees) <==> '1' in RawCode(AfterFirstThree(degrees))
  {
    CanonCharacters(RawCode(AfterFirstThree(degrees)), '1');
  }

  /** Two degree-3 vertices in a row make a piece "1", so such a benzenoid is not convex. */
  lemma AdjacentDegreeThreeNotConvex(degrees: string, i: nat)
    requires i + 1 < |degrees| && degrees[i] == '3' && degrees[i + 1] == '3'
    ensures '1' in Code(degrees)
  {
    AdjacentDegreeThreeGivesOne(degrees, i);
    ConvexIffNoOneInRawCode(degrees);
  }

  /** Two degree-3 vertices in a row make a piece "1" of the raw code. */
  lemma AdjacentDegreeThreeGivesOne(degrees: string, i: nat)
    requires i + 1 < |degrees| && degrees[i] == '3' && degrees[i + 1] == '3'
    ensures '1' in RawCode(AfterFirstThree(degrees))
  {
    var pos := FirstIndex(degrees, '3');
    var rest := AfterFirstThree(degrees);
    assert rest == degrees[pos + 1..] + degrees[..pos];
    var segs := Split(rest, '3');
    if i == pos {
      assert rest[0] == '3';
      assert segs[0] == [];
      EmptyPieceGivesOne(segs, 0);
    } else {
      var j := i - pos - 1;
      assert rest[j] == '3' && rest[j + 1] == '3';
      var k := EmptyPieceBetween(rest, j);
      EmptyPieceGivesOne(segs, k);
    }
  }

  /** Two separators in a row leave an empty piece (not the first one) between them. */
  lemma {:induction false} EmptyPieceBetween(s: string, j: nat) returns (k: nat)
    requires j + 1 < |s| && s[j] == '3' && s[j + 1] == '3'
    ensures 1 <= k < |Split(s, '3')| && Split(s, '3')[k] == []
  {
    var t := Split(s[1..], '3');
    if j == 0 {
      assert Split(s, '3') == [[]] + t;
      assert t[0] == [];
      k := 1;
    } else {
      var k' := EmptyPieceBetween(s[1..], j - 1);
      if s[0] == '3' {
        assert Split(s, '3') == [[]] + t;
        k := k' + 1;
      } else {
        assert Split(s, '3') == [[s[0]] + t[0]] + t[1..];
        k := k';
      }
    }
  }

  /**
   * The perimeter is a cycle, so its last and first vertices are adjacent
   * too: two degree-3 vertices there also put a '1' in the code.
   */
  lemma WrapDegreeThreeNotConvex(degrees: string)
    requires |degrees| >= 2 && degrees[0] == '3' && degrees[|degrees| - 1] == '3'
    ensures '1' in Code(degrees)
  {
    var rest := AfterFirstThree(degrees);
    assert FirstIndex(degrees, '3') == 0;
    assert rest == degrees[1..];
    LastPieceEmpty(rest);
    var segs := Split(rest, '3');
    EmptyPieceGivesOne(segs, |segs| - 1);
    ConvexIffNoOneInRawCode(degrees);
  }

  /** A string that ends with the separator has an empty last piece. */
  lemma {:induction false} LastPieceEmpty(s: string)
    requires |s| > 0 && s[|s| - 1] == '3'
    ensures Split(s, '3')[|Split(s, '3')| - 1] == []
  {
    var t := Split(s[1..], '3');
    if |s| == 1 {
      assert s[1..] == [];
      assert Split(s, '3') == [[]] + t;
    } else {
      LastPieceEmpty(s[1..]);
      assert s[1..][|s| - 2] == '3';
      CountZero(s[1..], '3');
      if s[0] == '3' {
        assert Split(s, '3') == [[]] + t;
      } else {
        assert Split(s, '3') == [[s[0]] + t[0]] + t[1..];
      }
    }
  }

  /** An empty run is written as the piece "1". */
  lemma {:induction false} EmptyPieceGivesOne(segs: seq<string>, k: nat)
    requires k < |segs| && segs[k] == []
    ensures '1' in RunCode(segs)
  {
    if k == 0 {
      assert Decimal(1) == "1";
      assert RunCode(segs)[0] == '1';
    } else {
      EmptyPieceGivesOne(segs[1..], k - 1);
      var d := Decimal(|segs[0]| + 1);
      var r := RunCode(segs[1..]);
      var x :| 0 <= x < |r| && r[x] == '1';
      assert RunCode(segs)[|d| + x] == '1';
    }
  }
}
