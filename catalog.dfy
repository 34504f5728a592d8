/** The course record and the pure list operations the request handlers use:
    the first-match lookup by code and the filter that drops every record with
    a given code. */
module Catalog {

  datatype Option<+T> = None | Some(value: T)

  /** One catalog entry. Every field is a string; `code` is the only identity a
      record has, and nothing makes it unique within the catalog. */
  datatype Course = Course(
    name: string,
    code: string,
    instructor: string,
    semester: string,
    schedule: string,
    classroom: string,
    prerequisites: string,
    grading: string,
    description: string)

  /** The nine keys under which a record is stored, in the order the add route
      writes them. */
  const Keys: seq<string> := ["name", "code", "instructor", "semester", "schedule",
                              "classroom", "prerequisites", "grading", "description"]

  /** `course[key]` on the stored record: a value for the nine keys, none otherwise. */
  function Field(c: Course, key: string): (r: Option<string>)
    ensures r.Some? <==> key in Keys
    ensures key == "code" ==> r == Some(c.code)
  {
    if key == "name" then Some(c.name)
    else if key == "code" then Some(c.code)
    else if key == "instructor" then Some(c.instructor)
    else if key == "semester" then Some(c.semester)
    else if key == "schedule" then Some(c.schedule)
    else if key == "classroom" then Some(c.classroom)
    else if key == "prerequisites" then Some(c.prerequisites)
    else if key == "grading" then Some(c.grading)
    else if key == "description" then Some(c.description)
    else None
  }

  /** Two records that agree on all nine keys are the same record, so a contract
      that fixes each key of a record (as `Validation.NewCourse`'s does) fixes
      the whole record. */
  lemma FieldsDetermineCourse(a: Course, b: Course)
    requires forall k | k in Keys :: Field(a, k) == Field(b, k)
    ensures a == b
  {
    assert Field(a, Keys[0]) == Field(b, Keys[0]);
    assert Field(a, Keys[1]) == Field(b, Keys[1]);
    assert Field(a, Keys[2]) == Field(b, Keys[2]);
    assert Field(a, Keys[3]) == Field(b, Keys[3]);
    assert Field(a, Keys[4]) == Field(b, Keys[4]);
    assert Field(a, Keys[5]) == Field(b, Keys[5]);
    assert Field(a, Keys[6]) == Field(b, Keys[6]);
    assert Field(a, Keys[7]) == Field(b, Keys[7]);
    assert Field(a, Keys[8]) == Field(b, Keys[8]);
  }

  /** The value each of the nine keys gives. */
  lemma FieldValues(c: Course)
    ensures Field(c, "name") == Some(c.name) && Field(c, "code") == Some(c.code)
    ensures Field(c, "instructor") == Some(c.instructor) && Field(c, "semester") == Some(c.semester)
    ensures Field(c, "schedule") == Some(c.schedule) && Field(c, "classroom") == Some(c.classroom)
    ensures Field(c, "prerequisites") == Some(c.prerequisites) && Field(c, "grading") == Some(c.grading)
    ensures Field(c, "description") == Some(c.description)
  {
  }

  /** How many records carry `code`. */
  function CountCode(s: seq<Course>, code: string): (n: nat)
    ensures n <= |s|
    ensures n == 0 <==> forall i :: 0 <= i < |s| ==> s[i].code != code
  {
    if s == [] then 0
    else (if s[0].code == code then 1 else 0) + CountCode(s[1..], code)
  }

  /** Position of the first record, in stored order, whose code is `code`: the
      `next(...)` scan over the catalog. */
  function FirstIndex(s: seq<Course>, code: string): (r: Option<nat>)
    ensures r.None? <==> forall i :: 0 <= i < |s| ==> s[i].code != code
    ensures r.Some? ==> r.value < |s| && s[r.value].code == code
    ensures r.Some? ==> forall j :: 0 <= j < r.value ==> s[j].code != code
  {
    if s == [] then None
    else if s[0].code == code then Some(0)
    else match FirstIndex(s[1..], code)
      case None => None
      case Some(k) => Some(k + 1)
  }

  /** The lookup by code: the first matching record, or none. */
  function Find(s: seq<Course>, code: string): (r: Option<Course>)
    ensures r.None? <==> CountCode(s, code) == 0
    ensures r.Some? ==> r.value in s && r.value.code == code
  {
    match FirstIndex(s, code)
    case None => None
    case Some(i) => Some(s[i])
  }

  /** Lookup answers with the record at the smallest index that matches. */
  lemma FindIsFirstMatch(s: seq<Course>, code: string, i: nat)
    requires i < |s| && s[i].code == code
    requires forall j :: 0 <= j < i ==> s[j].code != code
    ensures Find(s, code) == Some(s[i])
  {
  }

  /** The catalog with every record whose code is `code` filtered out. */
  function WithoutCode(s: seq<Course>, code: string): (r: seq<Course>)
    ensures |r| == |s| - CountCode(s, code)
    ensures forall i :: 0 <= i < |r| ==> r[i].code != code
  {
    if s == [] then []
    else if s[0].code == code then WithoutCode(s[1..], code)
    else [s[0]] + WithoutCode(s[1..], code)
  }

  /** `r` is obtained from `s` by deleting some elements, keeping the order of the rest. */
  predicate IsSubsequence<T(==)>(r: seq<T>, s: seq<T>)
    decreases |s|
  {
    if r == [] then true
    else if s == [] then false
    else (r[0] == s[0] && IsSubsequence(r[1..], s[1..])) || IsSubsequence(r, s[1..])
  }

  /** Removal keeps the surviving records in their original relative order. */
  lemma {:induction false} WithoutCodeKeepsOrder(s: seq<Course>, code: string)
    ensures IsSubsequence(WithoutCode(s, code), s)
  {
    if s != [] {
      WithoutCodeKeepsOrder(s[1..], code);
      var rest := WithoutCode(s[1..], code);
      if s[0].code == code {
        assert WithoutCode(s, code) == rest;
        SubsequenceOfTail(rest, s);
      } else {
        assert WithoutCode(s, code) == [s[0]] + rest;
        assert ([s[0]] + rest)[1..] == rest;
      }
    }
  }

  /** A subsequence of the tail is a subsequence of the whole. */
  lemma SubsequenceOfTail<T>(r: seq<T>, s: seq<T>)
    requires s != [] && IsSubsequence(r, s[1..])
    ensures IsSubsequence(r, s)
  {
  }

  /** Removal keeps every copy of every record whose code differs from `code`,
      and no record whose code is `code`. */
  lemma {:induction false} WithoutCodeMultiplicity(s: seq<Course>, code: string, x: Course)
    ensures multiset(WithoutCode(s, code))[x] == if x.code == code then 0 else multiset(s)[x]
  {
    if s != [] {
      WithoutCodeMultiplicity(s[1..], code, x);
      assert s == [s[0]] + s[1..];
      assert multiset(s) == multiset([s[0]]) + multiset(s[1..]);
      if s[0].code != code {
        assert multiset(WithoutCode(s, code))
          == multiset([s[0]]) + multiset(WithoutCode(s[1..], code));
      }
    }
  }

  /** Filtering out a code that no record carries leaves the catalog as it was. */
  lemma {:induction false} WithoutAbsentCode(s: seq<Course>, code: string)
    requires CountCode(s, code) == 0
    ensures WithoutCode(s, code) == s
  {
    if s != [] {
      assert s[0].code != code;
      WithoutAbsentCode(s[1..], code);
      assert [s[0]] + s[1..] == s;
    }
  }

  /** After removal, lookup of the removed code finds nothing. */
  lemma FindAfterRemove(s: seq<Course>, code: string)
    ensures Find(WithoutCode(s, code), code) == None
  {
  }

  /** Appending one record adds one to the count exactly when it carries the code. */
  lemma {:induction false} CountCodeAppend(s: seq<Course>, c: Course, code: string)
    ensures CountCode(s + [c], code) == CountCode(s, code) + (if c.code == code then 1 else 0)
  {
    if s == [] {
      assert [] + [c] == [c];
    } else {
      assert (s + [c])[1..] == s[1..] + [c];
      CountCodeAppend(s[1..], c, code);
    }
  }

  /** Lookup after an append: the new record is found by its code unless an
      earlier record already carries that code, which then shadows it. */
  lemma FindAfterAppend(s: seq<Course>, c: Course)
    ensures Find(s + [c], c.code) == if CountCode(s, c.code) == 0 then Some(c) else Find(s, c.code)
  {
    var t := s + [c];
    if CountCode(s, c.code) == 0 {
      assert forall j :: 0 <= j < |s| ==> t[j].code != c.code;
      FindIsFirstMatch(t, c.code, |s|);
    } else {
      var i := FirstIndex(s, c.code).value;
      assert forall j :: 0 <= j < i ==> t[j].code != c.code;
      FindIsFirstMatch(t, c.code, i);
    }
  }

  /** Lookup and removal disagree on duplicates: when two records share a code,
      lookup reports only the first while removal deletes both. */
  lemma DuplicateCodes(s: seq<Course>, code: string, i: nat, j: nat)
    requires i < j < |s| && s[i].code == code && s[j].code == code
    requires forall k :: 0 <= k < i ==> s[k].code != code
    ensures Find(s, code) == Some(s[i])
    ensures |WithoutCode(s, code)| <= |s| - 2
  {
    FindIsFirstMatch(s, code, i);
    CountAtLeastTwo(s, code, i, j);
  }

  /** Two matching positions mean a count of at least two. */
  lemma {:induction false} CountAtLeastTwo(s: seq<Course>, code: string, i: nat, j: nat)
    requires i < j < |s| && s[i].code == code && s[j].code == code
    ensures CountCode(s, code) >= 2
  {
    if i == 0 {
      assert s[1..][j - 1].code == code;
      assert CountCode(s[1..], code) != 0;
    } else {
      CountAtLeastTwo(s[1..], code, i - 1, j - 1);
    }
  }
}
