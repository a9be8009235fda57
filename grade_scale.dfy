/**
 * The HEC grading scale of `src/components/GPACalculator.tsx`: eleven grades,
 * each with a letter (the source's `label`), the value string the grade
 * selector stores, and its quality points.
 */
module GradeScale {
  import opened Wrappers

  datatype Grade = Grade(letter: string, value: string, points: real)

  /** The table, from the highest grade to the lowest. */
  const GRADES: seq<Grade> := [
    Grade("A", "4.00", 4.0),
    Grade("A-", "3.67", 3.67),
    Grade("B+", "3.33", 3.33),
    Grade("B", "3.00", 3.0),
    Grade("B-", "2.67", 2.67),
    Grade("C+", "2.33", 2.33),
    Grade("C", "2.00", 2.0),
    Grade("C-", "1.67", 1.67),
    Grade("D+", "1.33", 1.33),
    Grade("D", "1.00", 1.0),
    Grade("F", "0.00", 0.0)
  ]

  function DecimalDigit(d: int): (r: char)
    requires 0 <= d < 10
  {
    (48 + d) as char
  }

  /** `n / 100` written with one integer digit and exactly two decimals, as `toFixed(2)` writes it. */
  function TwoDecimals(n: int): (r: string)
    requires 0 <= n < 1000
    ensures |r| == 4 && r[1] == '.'
  {
    [DecimalDigit(n / 100), '.', DecimalDigit(n / 10 % 10), DecimalDigit(n % 10)]
  }

  /** A number below 1000 is its three decimal digits. */
  lemma DecimalDigits(n: int)
    requires 0 <= n < 1000
    ensures n == 100 * (n / 100) + 10 * (n / 10 % 10) + n % 10
  {
    var t := n / 10;
    assert n == 10 * t + n % 10;
    assert t == 10 * (t / 10) + t % 10;
    assert t / 10 == n / 100;
  }

  /** Different numbers of hundredths are written differently. */
  lemma TwoDecimalsInjective(a: int, b: int)
    requires 0 <= a < 1000 && 0 <= b < 1000
    requires TwoDecimals(a) == TwoDecimals(b)
    ensures a == b
  {
    assert DecimalDigit(a / 100) == TwoDecimals(a)[0] == TwoDecimals(b)[0] == DecimalDigit(b / 100);
    assert DecimalDigit(a / 10 % 10) == TwoDecimals(a)[2] == TwoDecimals(b)[2] == DecimalDigit(b / 10 % 10);
    assert DecimalDigit(a % 10) == TwoDecimals(a)[3] == TwoDecimals(b)[3] == DecimalDigit(b % 10);
    DecimalDigits(a);
    DecimalDigits(b);
  }

  /** The quality points of a grade as a whole number of hundredths. */
  function Hundredths(p: real): (r: int)
  {
    (p * 100.0).Floor
  }

  /**
   * The position of a letter grade on the scale: three steps per letter
   * (`+`, plain, `-`), F lowest.  Used to show that the letters are distinct.
   */
  function LetterRank(letter: string): (r: int)
  {
    if letter == [] then 0
    else
      var modifier := if |letter| > 1 && letter[1] == '+' then 1
                      else if |letter| > 1 && letter[1] == '-' then -1 else 0;
      3 * (70 - letter[0] as int) + modifier
  }

  /** The first table entry whose stored value is `v` (`GRADES.find(g => g.value === v)`). */
  function FindIn(table: seq<Grade>, v: string): (r: Option<Grade>)
    ensures r.Some? ==> r.value.value == v
  {
    if table == [] then None
    else if table[0].value == v then Some(table[0])
    else FindIn(table[1..], v)
  }

  /** The search fails exactly when no entry carries the value. */
  lemma {:induction false} FindInNone(table: seq<Grade>, v: string)
    ensures FindIn(table, v).None? <==> forall i :: 0 <= i < |table| ==> table[i].value != v
    ensures FindIn(table, v).Some? ==> FindIn(table, v).value in table
  {
    if table != [] {
      FindInNone(table[1..], v);
      assert forall i :: 1 <= i < |table| ==> table[i] == table[1..][i - 1];
    }
  }

  function FindGrade(v: string): (r: Option<Grade>)
  {
    FindIn(GRADES, v)
  }

  predicate IsGradeValue(v: string)
  {
    exists i :: 0 <= i < |GRADES| && GRADES[i].value == v
  }

  ghost predicate AdjacentDecreasing(k: seq<real>)
  {
    forall i :: 0 <= i < |k| - 1 ==> k[i] > k[i + 1]
  }

  lemma {:induction false} DecreasingFromAdjacent(k: seq<real>, i: int, j: int)
    requires AdjacentDecreasing(k)
    requires 0 <= i < j < |k|
    ensures k[i] > k[j]
    decreases j - i
  {
    if j > i + 1 {
      DecreasingFromAdjacent(k, i + 1, j);
    }
  }

  /** One row: the points are a whole number of hundredths in [0, 4], and the value string is them to two decimals. */
  predicate RowWellFormed(g: Grade)
  {
    0 <= Hundredths(g.points) <= 400 &&
    Hundredths(g.points) as real == g.points * 100.0 &&
    g.value == TwoDecimals(Hundredths(g.points))
  }

  /** A row whose points are `h` hundredths, written with two decimals, is well formed. */
  lemma RowFromHundredths(g: Grade, h: int)
    requires 0 <= h <= 400
    requires g.points * 100.0 == h as real
    requires g.value == TwoDecimals(h)
    ensures RowWellFormed(g)
  {
    assert Hundredths(g.points) == h;
  }

  lemma RowsWellFormed()
    ensures forall i :: 0 <= i < |GRADES| ==> RowWellFormed(GRADES[i])
  {
    RowFromHundredths(GRADES[0], 400);
    RowFromHundredths(GRADES[1], 367);
    RowFromHundredths(GRADES[2], 333);
    RowFromHundredths(GRADES[3], 300);
    RowFromHundredths(GRADES[4], 267);
    RowFromHundredths(GRADES[5], 233);
    RowFromHundredths(GRADES[6], 200);
    RowFromHundredths(GRADES[7], 167);
    RowFromHundredths(GRADES[8], 133);
    RowFromHundredths(GRADES[9], 100);
    RowFromHundredths(GRADES[10], 0);
  }

  lemma AdjacentRowsDecrease()
    ensures forall i :: 0 <= i < |GRADES| - 1 ==>
      GRADES[i].points > GRADES[i + 1].points &&
      LetterRank(GRADES[i].letter) > LetterRank(GRADES[i + 1].letter)
  {
    assert LetterRank(GRADES[0].letter) == 15;
    assert LetterRank(GRADES[1].letter) == 14;
    assert LetterRank(GRADES[2].letter) == 13;
    assert LetterRank(GRADES[3].letter) == 12;
    assert LetterRank(GRADES[4].letter) == 11;
    assert LetterRank(GRADES[5].letter) == 10;
    assert LetterRank(GRADES[6].letter) == 9;
    assert LetterRank(GRADES[7].letter) == 8;
    assert LetterRank(GRADES[8].letter) == 7;
    assert LetterRank(GRADES[9].letter) == 6;
    assert LetterRank(GRADES[10].letter) == 0;
  }

  /**
   * The shape of the table: eleven rows from A at 4.0 down to F at 0.0, points
   * strictly decreasing, letters and value strings pairwise distinct, and every
   * value string the points written to two decimals.
   */
  lemma TableWellFormed()
    ensures |GRADES| == 11
    ensures GRADES[0].letter == "A" && GRADES[0].points == 4.0
    ensures GRADES[10].letter == "F" && GRADES[10].points == 0.0
    ensures forall i :: 0 <= i < |GRADES| ==> RowWellFormed(GRADES[i])
    ensures forall i, j :: 0 <= i < j < |GRADES| ==> GRADES[i].points > GRADES[j].points
    ensures forall i, j :: 0 <= i < j < |GRADES| ==> GRADES[i].letter != GRADES[j].letter
    ensures forall i, j :: 0 <= i < j < |GRADES| ==> GRADES[i].value != GRADES[j].value
  {
    RowsWellFormed();
    AdjacentRowsDecrease();
    var points := seq(|GRADES|, i requires 0 <= i < |GRADES| => GRADES[i].points);
    var ranks := seq(|GRADES|, i requires 0 <= i < |GRADES| => LetterRank(GRADES[i].letter) as real);
    assert AdjacentDecreasing(points);
    assert AdjacentDecreasing(ranks);
    forall i, j | 0 <= i < j < |GRADES|
      ensures GRADES[i].points > GRADES[j].points
      ensures GRADES[i].letter != GRADES[j].letter
      ensures GRADES[i].value != GRADES[j].value
    {
      DecreasingFromAdjacent(points, i, j);
      DecreasingFromAdjacent(ranks, i, j);
      assert RowWellFormed(GRADES[i]) && RowWellFormed(GRADES[j]);
      if GRADES[i].value == GRADES[j].value {
        TwoDecimalsInjective(Hundredths(GRADES[i].points), Hundredths(GRADES[j].points));
      }
    }
  }

  /** Every table entry carries points in [0, 4]. */
  lemma PointsInRange(g: Grade)
    requires g in GRADES
    ensures 0.0 <= g.points <= 4.0
  {
    RowsWellFormed();
    var i :| 0 <= i < |GRADES| && GRADES[i] == g;
    assert RowWellFormed(GRADES[i]);
  }

  /** A found grade is a table entry, so its points lie in [0, 4]. */
  lemma FoundGradeInRange(v: string)
    ensures FindGrade(v).Some? ==> 0.0 <= FindGrade(v).value.points <= 4.0
  {
    FindInNone(GRADES, v);
    if FindGrade(v).Some? {
      PointsInRange(FindGrade(v).value);
    }
  }

  /**
   * Looking a stored value up finds an entry exactly when the value is one of
   * the table's value strings; the empty string, which the selector never
   * stores, finds nothing.
   */
  lemma FindGradeSound(v: string)
    ensures FindGrade(v).Some? <==> IsGradeValue(v)
    ensures FindGrade("").None?
  {
    FindInNone(GRADES, v);
    FindInNone(GRADES, "");
    RowsWellFormed();
    forall i | 0 <= i < |GRADES| ensures GRADES[i].value != "" {
      assert RowWellFormed(GRADES[i]);
    }
  }
}
