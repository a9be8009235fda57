/**
 * `validateSharedData` (`src/lib/security.ts`): the structural check of a
 * share-link payload. The payload must be an object; each of its fields
 * `c` (courses), `g` (grades) and `s` (semesters) that holds an array must
 * hold only well-formed elements; any other field, and any of the three
 * that is absent or not an array, is not looked at.
 */
module SharedData {
  import opened Wrappers
  import opened JsText
  import opened JsonTree

  const KEY_C: JsString := [0x63]
  const KEY_G: JsString := [0x67]
  const KEY_S: JsString := [0x73]
  const KEY_N: JsString := [0x6E]
  const KEY_I: JsString := [0x69]
  const KEY_CR: JsString := [0x63, 0x72]

  /** `typeof v === 'object' && v !== null`: objects and arrays. */
  predicate IsObjectLike(v: Json)
  {
    v.JObject? || v.JArray?
  }

  /** A property read: the member's value on an object; arrays and other values have none of the keys read here. */
  function Field(v: Json, key: JsString): (r: Option<Json>)
  {
    if v.JObject? then Get(v.members, key) else None
  }

  predicate HasString(v: Json, key: JsString)
  {
    Field(v, key).Some? && Field(v, key).value.JString?
  }

  predicate HasNumber(v: Json, key: JsString)
  {
    Field(v, key).Some? && Field(v, key).value.JNumber?
  }

  /** The number read, when `HasNumber` holds. */
  function NumberOf(v: Json, key: JsString): real
    requires HasNumber(v, key)
  {
    Field(v, key).value.n
  }

  /** `d.x && Array.isArray(d.x)`: the elements when the field holds an array (every array is truthy). */
  function ArrayField(v: Json, key: JsString): (r: Option<seq<Json>>)
  {
    match Field(v, key)
    case Some(JArray(items)) => Some(items)
    case _ => None
  }

  /** A `c` element: an object with a string `n` and a number `cr` in [1, 30]. */
  predicate CourseOk(e: Json)
  {
    IsObjectLike(e) && HasString(e, KEY_N) && HasNumber(e, KEY_CR)
    && 1.0 <= NumberOf(e, KEY_CR) <= 30.0
  }

  /** A `g` element: an object with a number `i` (unbounded) and a string `g`. */
  predicate GradeOk(e: Json)
  {
    IsObjectLike(e) && HasNumber(e, KEY_I) && HasString(e, KEY_G)
  }

  /** An `s` element: an object with a string `n`, a number `cr` in [1, 50] and a number `g` in [0, 4]. */
  predicate SemesterOk(e: Json)
  {
    IsObjectLike(e) && HasString(e, KEY_N) && HasNumber(e, KEY_CR) && HasNumber(e, KEY_G)
    && 1.0 <= NumberOf(e, KEY_CR) <= 50.0
    && 0.0 <= NumberOf(e, KEY_G) <= 4.0
  }

  predicate CoursesOk(data: Json)
  {
    ArrayField(data, KEY_C).Some? ==>
      forall k :: 0 <= k < |ArrayField(data, KEY_C).value| ==> CourseOk(ArrayField(data, KEY_C).value[k])
  }

  predicate GradesOk(data: Json)
  {
    ArrayField(data, KEY_G).Some? ==>
      forall k :: 0 <= k < |ArrayField(data, KEY_G).value| ==> GradeOk(ArrayField(data, KEY_G).value[k])
  }

  predicate SemestersOk(data: Json)
  {
    ArrayField(data, KEY_S).Some? ==>
      forall k :: 0 <= k < |ArrayField(data, KEY_S).value| ==> SemesterOk(ArrayField(data, KEY_S).value[k])
  }

  /** What the validator accepts: an object-like value whose present arrays hold only well-formed elements. */
  predicate SharedDataValid(data: Json)
  {
    Truthy(data) && IsObjectLike(data) && CoursesOk(data) && GradesOk(data) && SemestersOk(data)
  }

  /**
   * `validateSharedData`: the three `for…of` loops with their early
   * `return false`, in the source's order of checks.
   */
  method ValidateSharedData(data: Json) returns (ok: bool)
    ensures ok == SharedDataValid(data)
  {
    if !Truthy(data) || !IsObjectLike(data) {
      return false;
    }
    var courses := ArrayField(data, KEY_C);
    if courses.Some? {
      for k := 0 to |courses.value|
        invariant forall j :: 0 <= j < k ==> CourseOk(courses.value[j])
      {
        var course := courses.value[k];
        if !IsObjectLike(course) {
          return false;
        }
        if !HasString(course, KEY_N) || !HasNumber(course, KEY_CR) {
          return false;
        }
        var cr := NumberOf(course, KEY_CR);
        if cr < 1.0 || cr > 30.0 {
          return false;
        }
      }
    }
    var grades := ArrayField(data, KEY_G);
    if grades.Some? {
      for k := 0 to |grades.value|
        invariant forall j :: 0 <= j < k ==> GradeOk(grades.value[j])
      {
        var grade := grades.value[k];
        if !IsObjectLike(grade) {
          return false;
        }
        if !HasNumber(grade, KEY_I) || !HasString(grade, KEY_G) {
          return false;
        }
      }
    }
    var semesters := ArrayField(data, KEY_S);
    if semesters.Some? {
      for k := 0 to |semesters.value|
        invariant forall j :: 0 <= j < k ==> SemesterOk(semesters.value[j])
      {
        var sem := semesters.value[k];
        if !IsObjectLike(sem) {
          return false;
        }
        if !HasString(sem, KEY_N) || !HasNumber(sem, KEY_CR) || !HasNumber(sem, KEY_G) {
          return false;
        }
        var cr := NumberOf(sem, KEY_CR);
        if cr < 1.0 || cr > 50.0 {
          return false;
        }
        var g := NumberOf(sem, KEY_G);
        if g < 0.0 || g > 4.0 {
          return false;
        }
      }
    }
    return true;
  }

  /**
   * Appending a member whose key differs from the one read leaves the read
   * unchanged, and a member with that key becomes the value read.
   */
  lemma {:induction false} GetAppend(ms: seq<Member>, m: Member, key: JsString)
    ensures m.key != key ==> Get(ms + [m], key) == Get(ms, key)
    ensures m.key == key ==> Get(ms + [m], key) == Some(m.value)
  {
    if ms == [] {
      assert ms + [m] == [m];
    } else {
      assert (ms + [m])[1..] == ms[1..] + [m];
      GetAppend(ms[1..], m, key);
    }
  }

  /** A member whose key is not `c`, `g` or `s` does not change the verdict on an object. */
  lemma OtherKeysIgnored(ms: seq<Member>, m: Member)
    requires m.key != KEY_C && m.key != KEY_G && m.key != KEY_S
    ensures SharedDataValid(JObject(ms + [m])) == SharedDataValid(JObject(ms))
  {
    GetAppend(ms, m, KEY_C);
    GetAppend(ms, m, KEY_G);
    GetAppend(ms, m, KEY_S);
    assert ArrayField(JObject(ms + [m]), KEY_C) == ArrayField(JObject(ms), KEY_C);
    assert ArrayField(JObject(ms + [m]), KEY_G) == ArrayField(JObject(ms), KEY_G);
    assert ArrayField(JObject(ms + [m]), KEY_S) == ArrayField(JObject(ms), KEY_S);
  }

  /** Null, booleans, numbers and strings are rejected; any array is accepted, since it has none of the three fields. */
  lemma ShapeOfPayload(data: Json)
    ensures !IsObjectLike(data) ==> !SharedDataValid(data)
    ensures data.JArray? ==> SharedDataValid(data)
  {
  }

  /** An object whose `c`, `g` and `s` hold no array is accepted, whatever else they hold. */
  lemma NonArrayFieldsSkipped(ms: seq<Member>)
    requires ArrayField(JObject(ms), KEY_C).None?
    requires ArrayField(JObject(ms), KEY_G).None?
    requires ArrayField(JObject(ms), KEY_S).None?
    ensures SharedDataValid(JObject(ms))
  {
  }

  /** One malformed course, grade or semester rejects the whole payload. */
  lemma OneBadElementRejects(data: Json, key: JsString, k: nat)
    requires key == KEY_C || key == KEY_G || key == KEY_S
    requires ArrayField(data, key).Some? && k < |ArrayField(data, key).value|
    requires var e := ArrayField(data, key).value[k];
      (key == KEY_C && !CourseOk(e)) || (key == KEY_G && !GradeOk(e)) || (key == KEY_S && !SemesterOk(e))
    ensures !SharedDataValid(data)
  {
  }

  /** The reviver does not change a property read by the validator (none of its keys is forbidden). */
  lemma ReviveKeepsField(v: Json, key: JsString)
    requires !Forbidden(key)
    ensures Field(Revive(v), key) == (if Field(v, key).Some? then Some(Revive(Field(v, key).value)) else None)
  {
    if v.JObject? {
      ReviveKeepsOtherMembers(v.members, key);
    }
  }

  /** An element passes the element checks exactly when its revived form does. */
  lemma ReviveKeepsElementChecks(e: Json)
    ensures CourseOk(Revive(e)) == CourseOk(e)
    ensures GradeOk(Revive(e)) == GradeOk(e)
    ensures SemesterOk(Revive(e)) == SemesterOk(e)
  {
    ReviveKeepsField(e, KEY_N);
    ReviveKeepsField(e, KEY_CR);
    ReviveKeepsField(e, KEY_I);
    ReviveKeepsField(e, KEY_G);
  }

  /** The array a field holds, read after reviving, is the revived array. */
  lemma ReviveKeepsArrayField(v: Json, key: JsString)
    requires !Forbidden(key)
    ensures ArrayField(Revive(v), key).Some? == ArrayField(v, key).Some?
    ensures ArrayField(v, key).Some? ==> ArrayField(Revive(v), key).value == ReviveItems(ArrayField(v, key).value)
  {
    ReviveKeepsField(v, key);
  }

  lemma CoursesOkRevive(data: Json)
    ensures CoursesOk(Revive(data)) == CoursesOk(data)
  {
    ReviveKeepsArrayField(data, KEY_C);
    if ArrayField(data, KEY_C).Some? {
      var items := ArrayField(data, KEY_C).value;
      forall k | 0 <= k < |items|
        ensures CourseOk(ReviveItems(items)[k]) == CourseOk(items[k])
      {
        ReviveKeepsElementChecks(items[k]);
      }
    }
  }

  lemma GradesOkRevive(data: Json)
    ensures GradesOk(Revive(data)) == GradesOk(data)
  {
    ReviveKeepsArrayField(data, KEY_G);
    if ArrayField(data, KEY_G).Some? {
      var items := ArrayField(data, KEY_G).value;
      forall k | 0 <= k < |items|
        ensures GradeOk(ReviveItems(items)[k]) == GradeOk(items[k])
      {
        ReviveKeepsElementChecks(items[k]);
      }
    }
  }

  lemma SemestersOkRevive(data: Json)
    ensures SemestersOk(Revive(data)) == SemestersOk(data)
  {
    ReviveKeepsArrayField(data, KEY_S);
    if ArrayField(data, KEY_S).Some? {
      var items := ArrayField(data, KEY_S).value;
      forall k | 0 <= k < |items|
        ensures SemesterOk(ReviveItems(items)[k]) == SemesterOk(items[k])
      {
        ReviveKeepsElementChecks(items[k]);
      }
    }
  }

  /**
   * The validator gives the same verdict on a payload and on the payload
   * after the `safeJSONParse` reviver: the reviver only removes keys the
   * validator never reads.
   */
  lemma ValidationIgnoresReviver(data: Json)
    ensures SharedDataValid(Revive(data)) == SharedDataValid(data)
  {
    CoursesOkRevive(data);
    GradesOkRevive(data);
    SemestersOkRevive(data);
  }
}
