/**
 * The aggregation logic of the 7th-semester GPA calculator
 * (`src/components/GPACalculator.tsx`): the fixed course list, the semester
 * GPA over graded courses, the cumulative GPA that folds in a previous credit
 * total and CGPA, and the component state the two handlers update.
 *
 * Quality points and GPAs are exact rationals (`real`) standing in for
 * JavaScript doubles; the two previous-term text fields are kept as what
 * `parseFloat` made of them (`None` for `NaN`).
 */
module GpaCalculator {
  import opened Wrappers
  import opened GradeScale

  datatype Course = Course(code: string, name: string, credits: nat)

  const COURSES: seq<Course> := [
    Course("SS-106", "Iqbaliyat", 2),
    Course("CSC-440", "Parallel and Distributed Computing", 3),
    Course("CS-363", "Entrepreneurship", 3),
    Course("CS-350", "Machine Learning", 3),
    Course("CS-390", "Cyber Security", 3),
    Course("CS-430", "Final Year Project I", 3)
  ]

  /** Stored grade values by course code (the component's `courseGrades`). */
  type CourseGrades = map<string, string>

  /** A stored value counts only when it is truthy: present and not the empty string. */
  predicate HasStoredValue(grades: CourseGrades, code: string)
  {
    code in grades && grades[code] != ""
  }

  /** The grade a course contributes: its stored value looked up by value string in the table. */
  function GradeOf(grades: CourseGrades, c: Course): (r: Option<Grade>)
  {
    if HasStoredValue(grades, c.code) then FindGrade(grades[c.code]) else None
  }

  function CoursePoints(grades: CourseGrades, c: Course): (r: real)
  {
    PointsFor(GradeOf(grades, c), c)
  }

  /** `gradeValue.points * course.credits` for the grade found, nothing when none is. */
  function PointsFor(found: Option<Grade>, c: Course): (r: real)
  {
    match found
    case Some(g) => g.points * c.credits as real
    case None => 0.0
  }

  /** `p` added up `k` times: a product the solver can reason about linearly. */
  function Times(p: real, k: nat): (r: real)
  {
    if k == 0 then 0.0 else Times(p, k - 1) + p
  }

  lemma {:induction false} TimesAdd(p: real, a: nat, b: nat)
    ensures Times(p, a + b) == Times(p, a) + Times(p, b)
    decreases b
  {
    if b > 0 {
      TimesAdd(p, a, b - 1);
    }
  }

  lemma {:induction false} TimesIsProduct(p: real, k: nat)
    ensures Times(p, k) == p * k as real
  {
    if k > 0 {
      TimesIsProduct(p, k - 1);
    }
  }

  function CourseCredits(grades: CourseGrades, c: Course): nat
  {
    if GradeOf(grades, c).Some? then c.credits else 0
  }

  /** Σ points·credits over the courses of `cs` whose stored value is a table value. */
  function MatchedPoints(cs: seq<Course>, grades: CourseGrades): (r: real)
  {
    if cs == [] then 0.0
    else MatchedPoints(cs[..|cs| - 1], grades) + CoursePoints(grades, cs[|cs| - 1])
  }

  /** Σ credits over the same courses. */
  function MatchedCredits(cs: seq<Course>, grades: CourseGrades): (r: nat)
  {
    if cs == [] then 0
    else MatchedCredits(cs[..|cs| - 1], grades) + CourseCredits(grades, cs[|cs| - 1])
  }

  /** Σ credits over the courses with any truthy stored value (the `currentCredits` reduce). */
  function ActiveCredits(cs: seq<Course>, grades: CourseGrades): (r: nat)
    ensures r >= MatchedCredits(cs, grades)
  {
    if cs == [] then 0
    else ActiveCredits(cs[..|cs| - 1], grades) +
         (if HasStoredValue(grades, cs[|cs| - 1].code) then cs[|cs| - 1].credits else 0)
  }

  function CreditSum(cs: seq<Course>): nat
  {
    if cs == [] then 0 else cs[0].credits + CreditSum(cs[1..])
  }

  /** `totalCredits`: the credits of the whole course list, whatever has been graded. */
  function TotalCredits(): (r: nat)
    ensures r == 17
  {
    assert CreditSum(COURSES[5..]) == 3;
    assert CreditSum(COURSES[4..]) == 6;
    assert CreditSum(COURSES[3..]) == 9;
    assert CreditSum(COURSES[2..]) == 12;
    assert CreditSum(COURSES[1..]) == 15;
    CreditSum(COURSES)
  }

  /** No listed course has a stored value that is a table value. */
  predicate NothingGraded(grades: CourseGrades)
  {
    forall c :: c in COURSES ==> GradeOf(grades, c).None?
  }

  /** The semester GPA as a value: absent when no credits are graded, else the credit-weighted mean, on the four-point scale. */
  function SemesterGpaOf(grades: CourseGrades): (r: Option<real>)
    ensures r.Some? ==> 0.0 <= r.value <= 4.0
    ensures r.Some? ==> r.value * MatchedCredits(COURSES, grades) as real == MatchedPoints(COURSES, grades)
  {
    PointsWithinCredits(COURSES, grades);
    Mean(MatchedPoints(COURSES, grades), MatchedCredits(COURSES, grades))
  }

  /**
   * The guarded division that ends `semesterGPA`: no value over zero credits,
   * otherwise the number that times the credits gives the points, which stays
   * in [0, 4] when the points are at most four per credit.
   */
  function Mean(points: real, credits: nat): (r: Option<real>)
    ensures r.None? <==> credits == 0
    ensures r.Some? ==> r.value * credits as real == points
    ensures r.Some? && 0.0 <= points <= 4.0 * credits as real ==> 0.0 <= r.value <= 4.0
  {
    if credits == 0 then None else Some(points / credits as real)
  }

  /**
   * `semesterGPA`: the `forEach` over the courses accumulating `totalPoints`
   * and `totalCreditsWithGrades`, then the guarded division.
   */
  method ComputeSemesterGpa(courseGrades: CourseGrades) returns (gpa: Option<real>)
    ensures gpa == SemesterGpaOf(courseGrades)
    ensures gpa.None? <==> NothingGraded(courseGrades)
    ensures gpa.Some? ==> 0.0 <= gpa.value <= 4.0
    ensures gpa.Some? ==>
      gpa.value * MatchedCredits(COURSES, courseGrades) as real == MatchedPoints(COURSES, courseGrades)
  {
    var totalPoints, totalCreditsWithGrades := SumGraded(COURSES, courseGrades);
    gpa := Mean(totalPoints, totalCreditsWithGrades);
    SemesterGpaFacts(courseGrades, gpa);
  }

  /**
   * The `forEach` of `semesterGPA`: a course adds its quality points and
   * credits when its stored value is truthy and found in the grade table.
   */
  method SumGraded(courses: seq<Course>, courseGrades: CourseGrades) returns (totalPoints: real, totalCreditsWithGrades: nat)
    ensures totalPoints == MatchedPoints(courses, courseGrades)
    ensures totalCreditsWithGrades == MatchedCredits(courses, courseGrades)
  {
    totalPoints := 0.0;
    totalCreditsWithGrades := 0;
    for i := 0 to |courses|
      invariant totalPoints == MatchedPoints(courses[..i], courseGrades)
      invariant totalCreditsWithGrades == MatchedCredits(courses[..i], courseGrades)
    {
      PrefixStep(courses, i, courseGrades, totalPoints, totalCreditsWithGrades);
      totalPoints, totalCreditsWithGrades := AddCourse(courses[i], courseGrades, totalPoints, totalCreditsWithGrades);
    }
    assert courses[..|courses|] == courses;
  }

  /**
   * The `forEach` callback for one course: its grade's points times its
   * credits, and its credits, are added when its stored value is truthy and
   * found in the grade table; otherwise the totals stay as they are.
   */
  method AddCourse(course: Course, courseGrades: CourseGrades, totalPoints: real, totalCreditsWithGrades: nat)
    returns (points: real, credits: nat)
    ensures points == totalPoints + CoursePoints(courseGrades, course)
    ensures credits == totalCreditsWithGrades + CourseCredits(courseGrades, course)
  {
    points, credits := totalPoints, totalCreditsWithGrades;
    var gradeValue := if course.code in courseGrades then courseGrades[course.code] else "";
    if gradeValue != "" {
      var grade := FindGrade(gradeValue);
      if grade.Some? {
        points := points + grade.value.points * course.credits as real;
        credits := credits + course.credits;
      }
    }
  }

  lemma SemesterGpaFacts(grades: CourseGrades, gpa: Option<real>)
    requires gpa == SemesterGpaOf(grades)
    ensures gpa.None? <==> NothingGraded(grades)
    ensures gpa.Some? ==> 0.0 <= gpa.value <= 4.0
    ensures gpa.Some? ==>
      gpa.value * MatchedCredits(COURSES, grades) as real == MatchedPoints(COURSES, grades)
  {
    NoGradeIffAbsent(grades);
  }

  lemma PrefixStep(cs: seq<Course>, i: nat, grades: CourseGrades, points: real, credits: nat)
    requires i < |cs|
    requires points == MatchedPoints(cs[..i], grades) && credits == MatchedCredits(cs[..i], grades)
    ensures MatchedPoints(cs[..i + 1], grades) == points + CoursePoints(grades, cs[i])
    ensures MatchedCredits(cs[..i + 1], grades) == credits + CourseCredits(grades, cs[i])
  {
    assert cs[..i + 1][..i] == cs[..i];
  }

  /** Every course in the list has at least one credit. */
  lemma CoursesHaveCredits()
    ensures forall c :: c in COURSES ==> c.credits > 0
  {
  }

  lemma {:induction false} MatchedCreditsZeroIff(cs: seq<Course>, grades: CourseGrades)
    requires forall c :: c in cs ==> c.credits > 0
    ensures MatchedCredits(cs, grades) == 0 <==> forall c :: c in cs ==> GradeOf(grades, c).None?
  {
    if cs != [] {
      var init := cs[..|cs| - 1];
      assert forall c :: c in cs <==> c in init || c == cs[|cs| - 1];
      MatchedCreditsZeroIff(init, grades);
    }
  }

  /** The semester GPA is absent exactly when no course's stored value is a table value. */
  lemma NoGradeIffAbsent(grades: CourseGrades)
    ensures SemesterGpaOf(grades).None? <==> NothingGraded(grades)
  {
    CoursesHaveCredits();
    MatchedCreditsZeroIff(COURSES, grades);
  }

  lemma CoursePointsWithinCredits(grades: CourseGrades, c: Course)
    ensures 0.0 <= CoursePoints(grades, c) <= 4.0 * CourseCredits(grades, c) as real
  {
    if GradeOf(grades, c).Some? {
      var g := GradeOf(grades, c).value;
      FoundGradeInRange(grades[c.code]);
      var k := c.credits as real;
      assert 0.0 <= g.points <= 4.0 && 0.0 <= k;
      assert (4.0 - g.points) * k >= 0.0;
      assert g.points * k >= 0.0;
    }
  }

  lemma {:induction false} PointsWithinCredits(cs: seq<Course>, grades: CourseGrades)
    ensures 0.0 <= MatchedPoints(cs, grades) <= 4.0 * MatchedCredits(cs, grades) as real
  {
    if cs != [] {
      PointsWithinCredits(cs[..|cs| - 1], grades);
      CoursePointsWithinCredits(grades, cs[|cs| - 1]);
    }
  }

  lemma CoursePointsAt(grades: CourseGrades, c: Course, p: real)
    requires GradeOf(grades, c).Some? ==> GradeOf(grades, c).value.points == p
    ensures CoursePoints(grades, c) == Times(p, CourseCredits(grades, c))
  {
    TimesIsProduct(p, CourseCredits(grades, c));
  }

  lemma {:induction false} UniformPoints(cs: seq<Course>, grades: CourseGrades, p: real)
    requires forall i :: 0 <= i < |cs| ==> CoursePoints(grades, cs[i]) == Times(p, CourseCredits(grades, cs[i]))
    ensures MatchedPoints(cs, grades) == Times(p, MatchedCredits(cs, grades))
  {
    if cs != [] {
      var init := cs[..|cs| - 1];
      UniformPoints(init, grades, p);
      UniformStep(cs, grades, p, init, cs[|cs| - 1]);
    }
  }

  lemma UniformStep(cs: seq<Course>, grades: CourseGrades, p: real, init: seq<Course>, c: Course)
    requires cs != [] && init == cs[..|cs| - 1] && c == cs[|cs| - 1]
    requires MatchedPoints(init, grades) == Times(p, MatchedCredits(init, grades))
    requires CoursePoints(grades, c) == Times(p, CourseCredits(grades, c))
    ensures MatchedPoints(cs, grades) == Times(p, MatchedCredits(cs, grades))
  {
    SnocSums(cs, grades, init, c);
    SumOfTimes(p, MatchedPoints(init, grades), MatchedCredits(init, grades), CoursePoints(grades, c), CourseCredits(grades, c),
               MatchedPoints(cs, grades), MatchedCredits(cs, grades));
  }

  /** Two sums of `p` repeated `a` and `b` times add up to `p` repeated `a + b` times. */
  lemma SumOfTimes(p: real, x: real, a: nat, y: real, b: nat, total: real, k: nat)
    requires x == Times(p, a) && y == Times(p, b) && total == x + y && k == a + b
    ensures total == Times(p, k)
  {
    TimesAdd(p, a, b);
  }

  /** The sums over a non-empty list are the sums over all but its last course plus that course's share. */
  lemma SnocSums(cs: seq<Course>, grades: CourseGrades, init: seq<Course>, c: Course)
    requires cs != [] && init == cs[..|cs| - 1] && c == cs[|cs| - 1]
    ensures MatchedPoints(cs, grades) == MatchedPoints(init, grades) + CoursePoints(grades, c)
    ensures MatchedCredits(cs, grades) == MatchedCredits(init, grades) + CourseCredits(grades, c)
  {
  }

  lemma MeanOfUniform(p: real, total: real, credits: nat)
    requires credits > 0
    requires total == Times(p, credits)
    ensures total / credits as real == p
  {
    TimesIsProduct(p, credits);
  }

  /** When every graded course carries the same points, the semester GPA is those points. */
  lemma UniformGradeGpa(grades: CourseGrades, p: real)
    requires forall c :: c in COURSES && GradeOf(grades, c).Some? ==> GradeOf(grades, c).value.points == p
    requires exists c :: c in COURSES && GradeOf(grades, c).Some?
    ensures SemesterGpaOf(grades) == Some(p)
  {
    NoGradeIffAbsent(grades);
    forall i | 0 <= i < |COURSES|
      ensures CoursePoints(grades, COURSES[i]) == Times(p, CourseCredits(grades, COURSES[i]))
    {
      CoursePointsAt(grades, COURSES[i], p);
    }
    UniformPoints(COURSES, grades, p);
    MeanOfUniform(p, MatchedPoints(COURSES, grades), MatchedCredits(COURSES, grades));
  }

  lemma {:induction false} SameGradesSameSums(cs: seq<Course>, g1: CourseGrades, g2: CourseGrades)
    requires forall c :: c in cs ==> GradeOf(g1, c) == GradeOf(g2, c)
    ensures MatchedPoints(cs, g1) == MatchedPoints(cs, g2)
    ensures MatchedCredits(cs, g1) == MatchedCredits(cs, g2)
  {
    if cs != [] {
      var init, last := cs[..|cs| - 1], cs[|cs| - 1];
      assert forall c :: c in init ==> c in cs;
      SameGradesSameSums(init, g1, g2);
      SameGradeStep(cs, g1, g2, init, last);
    }
  }

  lemma SameGradeStep(cs: seq<Course>, g1: CourseGrades, g2: CourseGrades, init: seq<Course>, last: Course)
    requires cs != [] && init == cs[..|cs| - 1] && last == cs[|cs| - 1]
    requires MatchedPoints(init, g1) == MatchedPoints(init, g2)
    requires MatchedCredits(init, g1) == MatchedCredits(init, g2)
    requires GradeOf(g1, last) == GradeOf(g2, last)
    ensures MatchedPoints(cs, g1) == MatchedPoints(cs, g2)
    ensures MatchedCredits(cs, g1) == MatchedCredits(cs, g2)
  {
    assert CoursePoints(g1, last) == CoursePoints(g2, last);
  }

  /**
   * Storing an empty or unknown value for a course adds neither points nor
   * credits: the semester GPA is what it would be with no value stored.
   */
  lemma UnknownValueIgnored(grades: CourseGrades, code: string, v: string)
    requires v == "" || FindGrade(v).None?
    ensures SemesterGpaOf(grades[code := v]) == SemesterGpaOf(grades - {code})
  {
    forall c | c in COURSES ensures GradeOf(grades[code := v], c) == GradeOf(grades - {code}, c) {
    }
    SameGradesSameSums(COURSES, grades[code := v], grades - {code});
  }

  /** Every stored truthy value of a listed course is a table value (what the grade selector stores). */
  predicate TruthyValuesAreGrades(grades: CourseGrades)
  {
    forall c :: c in COURSES && HasStoredValue(grades, c.code) ==> FindGrade(grades[c.code]).Some?
  }

  /** `currentCredits` equals the matched credits when every truthy stored value is a table value. */
  lemma {:induction false} ActiveCreditsCoverMatched(cs: seq<Course>, grades: CourseGrades)
    ensures (forall c :: c in cs && HasStoredValue(grades, c.code) ==> FindGrade(grades[c.code]).Some?)
            ==> MatchedCredits(cs, grades) == ActiveCredits(cs, grades)
  {
    if cs != [] {
      var init := cs[..|cs| - 1];
      assert forall c :: c in init ==> c in cs;
      ActiveCreditsCoverMatched(init, grades);
    }
  }

  /** With every truthy stored value a table value, `cgpa`'s credits are the semester's graded credits. */
  lemma ActiveEqualsMatched(grades: CourseGrades)
    requires TruthyValuesAreGrades(grades)
    ensures ActiveCredits(COURSES, grades) == MatchedCredits(COURSES, grades)
  {
    ActiveCreditsCoverMatched(COURSES, grades);
  }

  /**
   * `cgpa`: absent with the semester GPA; the semester GPA itself when either
   * previous field did not parse or the previous credits are not positive;
   * otherwise previous and current points over previous and current credits,
   * where the current credits count every course with a truthy stored value.
   * The previous GPA is not range-checked.
   */
  function Cgpa(semesterGpa: Option<real>, previousCredits: Option<real>, previousGpa: Option<real>,
                courseGrades: CourseGrades): (r: Option<real>)
    ensures r.None? <==> semesterGpa.None?
    ensures semesterGpa.Some? && (previousCredits.None? || previousGpa.None? || previousCredits.value <= 0.0)
            ==> r == semesterGpa
  {
    if semesterGpa.None? then None
    else if previousCredits.None? || previousGpa.None? || previousCredits.value <= 0.0 then semesterGpa
    else
      var prevCredits, prevGpa := previousCredits.value, previousGpa.value;
      var totalPrevPoints := prevGpa * prevCredits;
      var currentCredits := ActiveCredits(COURSES, courseGrades) as real;
      var currentPoints := semesterGpa.value * currentCredits;
      Some((totalPrevPoints + currentPoints) / (prevCredits + currentCredits))
  }

  lemma QuotientTimesDivisor(n: real, d: real)
    requires d > 0.0
    ensures (n / d) * d == n
  {
  }

  lemma SignOfProduct(x: real, w: real)
    requires w > 0.0
    ensures x * w < 0.0 <==> x < 0.0
    ensures x * w == 0.0 <==> x == 0.0
    ensures x * w > 0.0 <==> x > 0.0
  {
  }

  /** The third branch of `Cgpa`, unfolded once. */
  lemma CombinedBranch(semesterGpa: Option<real>, previousCredits: real, previousGpa: real, grades: CourseGrades)
    requires semesterGpa.Some? && previousCredits > 0.0
    ensures var active := ActiveCredits(COURSES, grades) as real;
      var s := semesterGpa.value;
      var r := Cgpa(semesterGpa, Some(previousCredits), Some(previousGpa), grades);
      r.Some? && r.value == (previousGpa * previousCredits + s * active) / (previousCredits + active)
  {
  }

  /** The mean `m` of `a` and `b` weighted by positive `wa` and `wb` lies between them, and meets `b` only when `a` does. */
  lemma WeightedMeanBetween(a: real, wa: real, b: real, wb: real, m: real)
    requires wa > 0.0 && wb > 0.0
    requires m == (a * wa + b * wb) / (wa + wb)
    ensures a <= b ==> a <= m <= b
    ensures b <= a ==> b <= m <= a
    ensures m == b <==> a == b
  {
    var w := wa + wb;
    QuotientTimesDivisor(a * wa + b * wb, w);
    assert (m - b) * w == (a - b) * wa;
    assert (m - a) * w == (b - a) * wb;
    SignOfProduct(m - b, w);
    SignOfProduct(a - b, wa);
    SignOfProduct(m - a, w);
    SignOfProduct(b - a, wb);
  }

  /**
   * When the previous credits are positive, the cumulative GPA is the weighted
   * mean of the previous GPA and the semester GPA, so it lies between them,
   * and it equals the semester GPA only when the previous GPA does: a previous
   * GPA of 0 or outside [0, 4] is folded in, not skipped.
   */
  lemma CgpaBetween(grades: CourseGrades, previousCredits: real, previousGpa: real)
    requires previousCredits > 0.0
    requires SemesterGpaOf(grades).Some?
    ensures Cgpa(SemesterGpaOf(grades), Some(previousCredits), Some(previousGpa), grades).Some?
    ensures previousGpa <= SemesterGpaOf(grades).value ==>
      previousGpa <= Cgpa(SemesterGpaOf(grades), Some(previousCredits), Some(previousGpa), grades).value
                  <= SemesterGpaOf(grades).value
    ensures SemesterGpaOf(grades).value <= previousGpa ==>
      SemesterGpaOf(grades).value
        <= Cgpa(SemesterGpaOf(grades), Some(previousCredits), Some(previousGpa), grades).value
        <= previousGpa
    ensures (Cgpa(SemesterGpaOf(grades), Some(previousCredits), Some(previousGpa), grades).value
             == SemesterGpaOf(grades).value) <==> previousGpa == SemesterGpaOf(grades).value
  {
    MeanBranch(SemesterGpaOf(grades), previousCredits, previousGpa, grades);
  }

  /** The third branch of `Cgpa` is a weighted mean of the previous GPA and the semester GPA. */
  lemma MeanBranch(semesterGpa: Option<real>, previousCredits: real, previousGpa: real, grades: CourseGrades)
    requires semesterGpa.Some? && previousCredits > 0.0 && ActiveCredits(COURSES, grades) > 0
    ensures var r := Cgpa(semesterGpa, Some(previousCredits), Some(previousGpa), grades);
      var s := semesterGpa.value;
      && r.Some?
      && (previousGpa <= s ==> previousGpa <= r.value <= s)
      && (s <= previousGpa ==> s <= r.value <= previousGpa)
      && (r.value == s <==> previousGpa == s)
  {
    CombinedBranch(semesterGpa, previousCredits, previousGpa, grades);
    var r := Cgpa(semesterGpa, Some(previousCredits), Some(previousGpa), grades);
    WeightedMeanBetween(previousGpa, previousCredits, semesterGpa.value, ActiveCredits(COURSES, grades) as real, r.value);
  }

  /** With a previous GPA in [0, 4] the cumulative GPA stays in [0, 4]. */
  lemma CgpaInRange(grades: CourseGrades, previousCredits: real, previousGpa: real)
    requires previousCredits > 0.0
    requires 0.0 <= previousGpa <= 4.0
    requires SemesterGpaOf(grades).Some?
    ensures var r := Cgpa(SemesterGpaOf(grades), Some(previousCredits), Some(previousGpa), grades);
      r.Some? && 0.0 <= r.value <= 4.0
  {
    SemesterGpaFacts(grades, SemesterGpaOf(grades));
    CgpaBetween(grades, previousCredits, previousGpa);
  }

  /**
   * The third branch of `Cgpa` with the semester's points substituted for
   * its GPA times the credits that `cgpa` counts.
   */
  lemma PooledMean(semesterGpa: Option<real>, previousCredits: real, previousGpa: real, grades: CourseGrades,
                   credits: nat, points: real)
    requires semesterGpa.Some? && previousCredits > 0.0
    requires ActiveCredits(COURSES, grades) == credits && semesterGpa.value * credits as real == points
    ensures previousCredits + credits as real > 0.0
    ensures Cgpa(semesterGpa, Some(previousCredits), Some(previousGpa), grades)
         == Some((previousGpa * previousCredits + points) / (previousCredits + credits as real))
  {
    CombinedBranch(semesterGpa, previousCredits, previousGpa, grades);
    PooledFormula(previousGpa, previousCredits, semesterGpa.value, credits as real, points);
    var r := Cgpa(semesterGpa, Some(previousCredits), Some(previousGpa), grades);
    assert r.value == (previousGpa * previousCredits + points) / (previousCredits + credits as real);
  }

  /** Replacing the semester's GPA times its credits by its points leaves the pooled mean unchanged. */
  lemma PooledFormula(previousGpa: real, previousCredits: real, s: real, k: real, points: real)
    requires previousCredits > 0.0 && k >= 0.0 && s * k == points
    ensures previousCredits + k > 0.0
    ensures (previousGpa * previousCredits + s * k) / (previousCredits + k)
         == (previousGpa * previousCredits + points) / (previousCredits + k)
  {
  }

  /**
   * When every truthy stored value is a table value and the previous credits
   * are positive, the cumulative GPA is all quality points (previous GPA times
   * previous credits, plus the semester's matched points) over all credits,
   * and that denominator is positive.
   */
  lemma CgpaPooled(grades: CourseGrades, previousCredits: real, previousGpa: real)
    requires previousCredits > 0.0
    requires TruthyValuesAreGrades(grades)
    requires SemesterGpaOf(grades).Some?
    ensures previousCredits + MatchedCredits(COURSES, grades) as real > 0.0
    ensures Cgpa(SemesterGpaOf(grades), Some(previousCredits), Some(previousGpa), grades)
         == Some((previousGpa * previousCredits + MatchedPoints(COURSES, grades))
                 / (previousCredits + MatchedCredits(COURSES, grades) as real))
  {
    ActiveEqualsMatched(grades);
    PooledWhenCreditsAgree(grades, previousCredits, previousGpa);
  }

  /** The pooled form of the cumulative GPA, once `cgpa`'s credits are known to be the graded credits. */
  lemma PooledWhenCreditsAgree(grades: CourseGrades, previousCredits: real, previousGpa: real)
    requires previousCredits > 0.0
    requires ActiveCredits(COURSES, grades) == MatchedCredits(COURSES, grades)
    requires SemesterGpaOf(grades).Some?
    ensures previousCredits + MatchedCredits(COURSES, grades) as real > 0.0
    ensures Cgpa(SemesterGpaOf(grades), Some(previousCredits), Some(previousGpa), grades)
         == Some((previousGpa * previousCredits + MatchedPoints(COURSES, grades))
                 / (previousCredits + MatchedCredits(COURSES, grades) as real))
  {
    var semesterGpa, credits, points := SemesterGpaOf(grades), MatchedCredits(COURSES, grades), MatchedPoints(COURSES, grades);
    assert semesterGpa.value * credits as real == points;
    PooledMean(semesterGpa, previousCredits, previousGpa, grades, credits, points);
  }

  /** The codes of the listed courses. */
  function CourseCodes(): (r: set<string>)
  {
    set c | c in COURSES :: c.code
  }

  /** The codes of the courses that contribute to the semester GPA. */
  function GradedCodes(grades: CourseGrades): (r: set<string>)
  {
    set c | c in COURSES && GradeOf(grades, c).Some? :: c.code
  }

  /** `gradedCoursesCount`: the number of keys ever stored, whatever their values; none only for the empty map. */
  function GradedCoursesCount(grades: CourseGrades): (r: nat)
    ensures r == 0 <==> grades == map[]
  {
    assert |grades.Keys| == 0 ==> grades.Keys == {};
    |grades.Keys|
  }

  /** What the grade selectors can store: listed course codes mapped to table values. */
  predicate Selectable(grades: CourseGrades)
  {
    grades.Keys <= CourseCodes() && forall code :: code in grades ==> IsGradeValue(grades[code])
  }

  lemma {:induction false} SubsetCardinality(a: set<string>, b: set<string>)
    requires a <= b
    ensures |a| <= |b|
    decreases b
  {
    if a != {} {
      var x :| x in a;
      SubsetCardinality(a - {x}, b - {x});
    }
  }

  lemma {:induction false} CodesAtMost(cs: seq<Course>)
    ensures |set c | c in cs :: c.code| <= |cs|
  {
    if cs != [] {
      var init, last := cs[..|cs| - 1], cs[|cs| - 1];
      CodesAtMost(init);
      CodesOfSnoc(cs, init, last);
      SubsetCardinality(set c | c in cs :: c.code, (set c | c in init :: c.code) + {last.code});
    }
  }

  lemma CodesOfSnoc(cs: seq<Course>, init: seq<Course>, last: Course)
    requires cs != [] && init == cs[..|cs| - 1] && last == cs[|cs| - 1]
    ensures (set c | c in cs :: c.code) <= (set c | c in init :: c.code) + {last.code}
  {
    var all, before := set c | c in cs :: c.code, set c | c in init :: c.code;
    forall x | x in all ensures x in before + {last.code} {
      var i :| 0 <= i < |cs| && cs[i].code == x;
      if i < |cs| - 1 {
        assert init[i] == cs[i];
      }
    }
  }

  /**
   * When the map holds only what the selectors store, `gradedCoursesCount`
   * counts exactly the courses that enter the semester GPA, so it is at most
   * the number of listed courses, and it is zero exactly when there is no
   * semester GPA.
   */
  lemma GradedCountMatchesGpa(grades: CourseGrades)
    requires Selectable(grades)
    ensures grades.Keys == GradedCodes(grades)
    ensures GradedCoursesCount(grades) <= |COURSES|
    ensures GradedCoursesCount(grades) == 0 <==> SemesterGpaOf(grades).None?
  {
    SelectableKeysGraded(grades);
    SelectableCountBound(grades);
    GradedCountZeroIff(grades);
  }

  lemma SelectableKeysGraded(grades: CourseGrades)
    requires Selectable(grades)
    ensures grades.Keys == GradedCodes(grades)
  {
    forall code | code in grades ensures code in GradedCodes(grades) {
      var c :| c in COURSES && c.code == code;
      StoredValueGraded(grades, c, grades[code]);
      assert grades[c.code := grades[code]] == grades;
    }
  }

  lemma SelectableCountBound(grades: CourseGrades)
    requires Selectable(grades)
    ensures |grades.Keys| <= |COURSES|
  {
    SubsetCardinality(grades.Keys, CourseCodes());
    CodesAtMost(COURSES);
  }

  lemma GradedCountZeroIff(grades: CourseGrades)
    requires grades.Keys == GradedCodes(grades)
    ensures |grades.Keys| == 0 <==> SemesterGpaOf(grades).None?
  {
    NoGradeIffAbsent(grades);
    if |grades.Keys| != 0 {
      var code :| code in grades;
      var c :| c in COURSES && c.code == code && GradeOf(grades, c).Some?;
      GradedCourseGivesGpa(grades, c);
    } else {
      GradedCodesCover(grades);
      assert grades.Keys == {};
    }
  }

  /** The code of every graded listed course is a graded code. */
  lemma GradedCodesCover(grades: CourseGrades)
    ensures forall c :: c in COURSES && GradeOf(grades, c).Some? ==> c.code in GradedCodes(grades)
  {
  }

  /**
   * Storing a table value for a listed course makes the semester GPA present
   * and keeps a selectable map selectable.
   */
  lemma StoreSelectable(grades: CourseGrades, code: string, v: string)
    requires code in CourseCodes() && IsGradeValue(v)
    ensures SemesterGpaOf(grades[code := v]).Some?
    ensures Selectable(grades) ==> Selectable(grades[code := v])
  {
    var c :| c in COURSES && c.code == code;
    StoredValueGraded(grades, c, v);
    GradedCourseGivesGpa(grades[code := v], c);
    StoreKeepsSelectable(grades, code, v);
  }

  /** A table value stored for a course makes that course graded. */
  lemma StoredValueGraded(grades: CourseGrades, c: Course, v: string)
    requires IsGradeValue(v)
    ensures GradeOf(grades[c.code := v], c).Some?
  {
    FindGradeSound(v);
    FindGradeSound("");
  }

  /** One graded listed course is enough for a semester GPA. */
  lemma GradedCourseGivesGpa(grades: CourseGrades, c: Course)
    requires c in COURSES && GradeOf(grades, c).Some?
    ensures SemesterGpaOf(grades).Some?
  {
    NoGradeIffAbsent(grades);
  }

  lemma StoreKeepsSelectable(grades: CourseGrades, code: string, v: string)
    requires code in CourseCodes() && IsGradeValue(v)
    ensures Selectable(grades) ==> Selectable(grades[code := v])
  {
  }

  /**
   * The component's state: the grades chosen per course and what `parseFloat`
   * made of the two previous-term fields (`None` for `NaN`, which is what the
   * initial and reset empty strings give).
   */
  class Calculator {
    var courseGrades: CourseGrades
    var previousCredits: Option<real>
    var previousGpa: Option<real>

    constructor()
      ensures courseGrades == map[] && previousCredits.None? && previousGpa.None?
      ensures SemesterGpa().None? && CurrentCgpa().None? && GradedCount() == 0
    {
      courseGrades := map[];
      previousCredits := None;
      previousGpa := None;
      new;
      NoGradeIffAbsent(map[]);
    }

    /** The `semesterGPA` memo: absent exactly when no listed course is graded, otherwise on the four-point scale. */
    function SemesterGpa(): (r: Option<real>)
      reads this
      ensures r.None? <==> NothingGraded(courseGrades)
      ensures r.Some? ==> 0.0 <= r.value <= 4.0
    {
      NoGradeIffAbsent(courseGrades);
      SemesterGpaOf(courseGrades)
    }

    /** The `cgpa` memo: shown only with a semester GPA, and that GPA itself while the previous fields give nothing to fold in. */
    function CurrentCgpa(): (r: Option<real>)
      reads this
      ensures r.None? <==> SemesterGpa().None?
      ensures previousCredits.None? || previousGpa.None? || previousCredits.value <= 0.0 ==> r == SemesterGpa()
    {
      Cgpa(SemesterGpaOf(courseGrades), previousCredits, previousGpa, courseGrades)
    }

    /**
     * The `gradedCoursesCount` shown in the summary: zero only for an empty
     * map, and for what the selectors store, at most the number of courses
     * and zero exactly when there is no semester GPA.
     */
    function GradedCount(): (r: nat)
      reads this
      ensures r == 0 <==> courseGrades == map[]
      ensures Selectable(courseGrades) ==> r <= |COURSES| && (r == 0 <==> SemesterGpa().None?)
    {
      if Selectable(courseGrades) then
        GradedCountMatchesGpa(courseGrades);
        GradedCoursesCount(courseGrades)
      else
        GradedCoursesCount(courseGrades)
    }

    /**
     * `handleGradeChange`: stores `value` under `courseCode`, overwriting any
     * earlier value. A table value stored for a listed course makes the
     * semester GPA present, and storing what a selector offers keeps the map
     * selectable.
     */
    method HandleGradeChange(courseCode: string, value: string)
      modifies this
      ensures courseGrades == old(courseGrades)[courseCode := value]
      ensures previousCredits == old(previousCredits) && previousGpa == old(previousGpa)
      ensures courseCode in CourseCodes() && IsGradeValue(value) ==> SemesterGpa().Some?
      ensures old(Selectable(courseGrades)) && courseCode in CourseCodes() && IsGradeValue(value)
              ==> Selectable(courseGrades)
      ensures GradedCount() == old(GradedCount()) + (if courseCode in old(courseGrades) then 0 else 1)
    {
      if courseCode in CourseCodes() && IsGradeValue(value) {
        StoreSelectable(courseGrades, courseCode, value);
      }
      courseGrades := courseGrades[courseCode := value];
    }

    /** `handleReset`: clears every grade and both previous-term fields, so nothing is shown. */
    method HandleReset()
      modifies this
      ensures courseGrades == map[] && previousCredits.None? && previousGpa.None?
      ensures SemesterGpa().None? && CurrentCgpa().None? && GradedCount() == 0
    {
      courseGrades := map[];
      previousCredits := None;
      previousGpa := None;
      NoGradeIffAbsent(map[]);
    }

    /** The previous-credits field's change handler, given the field's parsed value. */
    method SetPreviousCredits(parsed: Option<real>)
      modifies this
      ensures previousCredits == parsed
      ensures courseGrades == old(courseGrades) && previousGpa == old(previousGpa)
      ensures SemesterGpa() == old(SemesterGpa())
    {
      previousCredits := parsed;
    }

    /** The previous-CGPA field's change handler, given the field's parsed value. */
    method SetPreviousGpa(parsed: Option<real>)
      modifies this
      ensures previousGpa == parsed
      ensures courseGrades == old(courseGrades) && previousCredits == old(previousCredits)
      ensures SemesterGpa() == old(SemesterGpa())
    {
      previousGpa := parsed;
    }
  }
}
