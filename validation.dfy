/** The add-course form: which required fields are missing, the error message
    listing them, and the record built from a form that passes. */
module Validation {
  import opened Catalog

  /** Submitted form fields, by name. A field the browser did not send is absent. */
  type Form = map<string, string>

  /** Python's `not form.get(key)`: an absent field and the empty string are both
      missing. Whitespace is not trimmed, so `"  "` counts as present. */
  predicate Blank(form: Form, key: string)
  {
    key !in form || form[key] == ""
  }

  /** `form.get(key, default)`. */
  function GetOr(form: Form, key: string, default: string): string
  {
    if key in form then form[key] else default
  }

  /** The required fields: form key and the label used in the error message, in
      the order they are checked. */
  const Required: seq<(string, string)> :=
    [("name", "Course Name"), ("code", "Course Code"), ("instructor", "Instructor")]

  /** The optional fields with the value a record gets when the field is absent. */
  const Optional: seq<(string, string)> :=
    [("semester", ""), ("schedule", ""), ("classroom", ""),
     ("prerequisites", "None"), ("grading", "Not specified"),
     ("description", "No description provided")]

  /** The labels of `req`, in order. */
  function LabelsOf(req: seq<(string, string)>): (r: seq<string>)
    ensures |r| == |req|
    ensures forall i :: 0 <= i < |req| ==> r[i] == req[i].1
  {
    if req == [] then [] else [req[0].1] + LabelsOf(req[1..])
  }

  /** The required labels, in the order the error message lists them. */
  lemma RequiredLabelsAre()
    ensures LabelsOf(Required) == ["Course Name", "Course Code", "Instructor"]
  {
  }

  /** The labels of the entries of `req` whose field is blank, in order: every
      blank entry's label is listed, and every listed label belongs to a blank
      entry. */
  function MissingFrom(req: seq<(string, string)>, form: Form): (r: seq<string>)
    ensures |r| <= |req|
    ensures forall i :: 0 <= i < |req| && Blank(form, req[i].0) ==> req[i].1 in r
    ensures forall l :: l in r ==> exists i :: 0 <= i < |req| && req[i].1 == l && Blank(form, req[i].0)
  {
    if req == [] then []
    else (if Blank(form, req[0].0) then [req[0].1] else []) + MissingFrom(req[1..], form)
  }

  /** The listed labels keep the order of `req`. */
  lemma {:induction false} MissingFromOrdered(req: seq<(string, string)>, form: Form)
    ensures IsSubsequence(MissingFrom(req, form), LabelsOf(req))
  {
    if req != [] {
      MissingFromOrdered(req[1..], form);
      var rest := MissingFrom(req[1..], form);
      var labels := LabelsOf(req);
      assert labels == [req[0].1] + LabelsOf(req[1..]);
      assert labels[1..] == LabelsOf(req[1..]);
      if Blank(form, req[0].0) {
        assert MissingFrom(req, form) == [req[0].1] + rest;
        assert ([req[0].1] + rest)[1..] == rest;
      } else {
        assert MissingFrom(req, form) == rest;
        SubsequenceOfTail(rest, labels);
      }
    }
  }

  /** The missing-field list the add route reports: at most the three required
      labels, each at most once. */
  function Missing(form: Form): (r: seq<string>)
    ensures |r| <= 3
    ensures forall l :: l in r ==> l in ["Course Name", "Course Code", "Instructor"]
  {
    RequiredLabelsAre();
    MissingFrom(Required, form)
  }

  /** The missing-field list is the three one-field checks concatenated in order. */
  lemma MissingUnfolded(form: Form)
    ensures Missing(form)
      == (if Blank(form, "name") then ["Course Name"] else [])
       + (if Blank(form, "code") then ["Course Code"] else [])
       + (if Blank(form, "instructor") then ["Instructor"] else [])
  {
    var r1 := Required[1..];
    var r2 := r1[1..];
    assert r1 == [("code", "Course Code"), ("instructor", "Instructor")];
    assert r2 == [("instructor", "Instructor")];
    assert r2[1..] == [];
    assert MissingFrom(r2, form) == (if Blank(form, "instructor") then ["Instructor"] else []);
    assert MissingFrom(r1, form)
      == (if Blank(form, "code") then ["Course Code"] else []) + MissingFrom(r2, form);
  }

  /** The missing-field list keeps the fixed order of the labels and names each
      label exactly when its field is absent or empty. */
  lemma MissingCharacterised(form: Form)
    ensures IsSubsequence(Missing(form), ["Course Name", "Course Code", "Instructor"])
    ensures "Course Name" in Missing(form) <==> Blank(form, "name")
    ensures "Course Code" in Missing(form) <==> Blank(form, "code")
    ensures "Instructor" in Missing(form) <==> Blank(form, "instructor")
    ensures Missing(form) == [] <==> !Blank(form, "name") && !Blank(form, "code") && !Blank(form, "instructor")
  {
    RequiredLabelsAre();
    MissingFromOrdered(Required, form);
    MissingUnfolded(form);
  }

  /** The validation step of the add route, building the list with appends in
      the order the fields are checked. */
  method CollectMissing(form: Form) returns (missing: seq<string>)
    ensures missing == Missing(form)
  {
    missing := [];
    if Blank(form, "name") {
      missing := missing + ["Course Name"];
    }
    if Blank(form, "code") {
      missing := missing + ["Course Code"];
    }
    if Blank(form, "instructor") {
      missing := missing + ["Instructor"];
    }
    MissingUnfolded(form);
  }

  /** `sep.join(parts)`: a non-empty join starts with the first part and ends
      with the last. */
  function Join(parts: seq<string>, sep: string): (r: string)
    ensures parts != [] ==> |parts[0]| <= |r| && r[..|parts[0]|] == parts[0]
  {
    if parts == [] then ""
    else if |parts| == 1 then parts[0]
    else
      var rest := Join(parts[1..], sep);
      assert parts[1..][|parts[1..]| - 1] == parts[|parts| - 1];
      parts[0] + sep + rest
  }

  /** Joining one more part appends the separator and that part, which is how
      the message grows field by field; with `Join([x], sep) == x` this
      determines the join completely. */
  lemma {:induction false} JoinAppend(parts: seq<string>, x: string, sep: string)
    requires parts != []
    ensures Join(parts + [x], sep) == Join(parts, sep) + sep + x
  {
    assert (parts + [x])[1..] == parts[1..] + [x];
    if |parts| > 1 {
      JoinAppend(parts[1..], x, sep);
    }
  }

  const RequiredPrefix: string := "Error: The following fields are required: "

  /** The flash message for a rejected form. */
  function RequiredMessage(missing: seq<string>): (m: string)
    ensures |RequiredPrefix| <= |m| && m[..|RequiredPrefix|] == RequiredPrefix
  {
    RequiredPrefix + Join(missing, ", ")
  }

  /** A form with only `name` missing is rejected naming exactly "Course Name". */
  lemma OnlyNameMissing(form: Form)
    requires Blank(form, "name") && !Blank(form, "code") && !Blank(form, "instructor")
    ensures Missing(form) == ["Course Name"]
    ensures RequiredMessage(Missing(form)) == "Error: The following fields are required: Course Name"
  {
    MissingUnfolded(form);
  }

  /** An empty form is rejected naming all three labels, comma separated. */
  lemma EmptyFormMessage()
    ensures RequiredMessage(Missing(map[]))
      == RequiredPrefix + "Course Name" + ", " + "Course Code" + ", " + "Instructor"
  {
  }

  /** The record the add route stores: the three required fields as submitted,
      each optional field as submitted when present (even when empty) and its
      default when absent. */
  function NewCourse(form: Form): (c: Course)
    requires "name" in form && "code" in form && "instructor" in form
    ensures Field(c, "name") == Some(form["name"])
    ensures Field(c, "code") == Some(form["code"])
    ensures Field(c, "instructor") == Some(form["instructor"])
    ensures forall i :: 0 <= i < |Optional| ==>
      Field(c, Optional[i].0) == Some(if Optional[i].0 in form then form[Optional[i].0] else Optional[i].1)
  {
    Course(
      form["name"], form["code"], form["instructor"],
      GetOr(form, "semester", ""),
      GetOr(form, "schedule", ""),
      GetOr(form, "classroom", ""),
      GetOr(form, "prerequisites", "None"),
      GetOr(form, "grading", "Not specified"),
      GetOr(form, "description", "No description provided"))
  }

  /** The per-key description in `NewCourse`'s contract pins the whole record:
      any record that agrees with it on the nine keys is the one stored. */
  lemma NewCourseDetermined(form: Form, c: Course)
    requires "name" in form && "code" in form && "instructor" in form
    requires Field(c, "name") == Some(form["name"])
    requires Field(c, "code") == Some(form["code"])
    requires Field(c, "instructor") == Some(form["instructor"])
    requires forall i :: 0 <= i < |Optional| ==>
      Field(c, Optional[i].0) == Some(if Optional[i].0 in form then form[Optional[i].0] else Optional[i].1)
    ensures c == NewCourse(form)
  {
    var n := NewCourse(form);
    FieldValues(c);
    FieldValues(n);
    assert Optional[0] == ("semester", "") && Optional[1] == ("schedule", "");
    assert Optional[2] == ("classroom", "") && Optional[3] == ("prerequisites", "None");
    assert Optional[4] == ("grading", "Not specified");
    assert Optional[5] == ("description", "No description provided");
    assert Field(c, Optional[0].0) == Field(n, Optional[0].0);
    assert Field(c, Optional[1].0) == Field(n, Optional[1].0);
    assert Field(c, Optional[2].0) == Field(n, Optional[2].0);
    assert Field(c, Optional[3].0) == Field(n, Optional[3].0);
    assert Field(c, Optional[4].0) == Field(n, Optional[4].0);
    assert Field(c, Optional[5].0) == Field(n, Optional[5].0);
  }
}
