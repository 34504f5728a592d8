/** The four catalog routes of the course portal, with the page rendered, the redirect
    and the flash message each returns as values. */
module Handlers {
  import opened Catalog
  import opened Store
  import opened Validation

  datatype HttpMethod = GET | POST

  datatype Category = Success | Error

  /** A one-shot message shown on the next page, with its category. */
  datatype Flash = Flash(message: string, category: Category)

  /** Routes a handler redirects to. */
  datatype Endpoint = ToCatalog | ToAddForm

  /** Templates a handler renders, with the data passed to them. */
  datatype Page =
    | CatalogPage(courses: seq<Course>)
    | DetailsPage(course: Course)
    | AddCoursePage

  /** Every response is either a rendered page or a redirect carrying a flash. */
  datatype Response =
    | Render(page: Page)
    | Redirect(to: Endpoint, flash: Flash)

  /** The not-found error; the code can be read back from between the quotes,
      so different codes give different messages. */
  function NotFoundMessage(code: string): (m: string)
    ensures |m| == |"No course found with code '"| + |code| + 2
    ensures m[|"No course found with code '"|..|m| - 2] == code
  {
    "No course found with code '" + code + "'."
  }

  /** The success message after an add; it quotes the course name. */
  function AddedMessage(name: string): (m: string)
    ensures |m| == |"Course '"| + |name| + |"' added successfully!"|
    ensures m[|"Course '"|..|"Course '"| + |name|] == name
  {
    "Course '" + name + "' added successfully!"
  }

  /** The success message after a removal; it quotes the course name. */
  function RemovedMessage(name: string): (m: string)
    ensures |m| == |"Course '"| + |name| + |"' removed successfully!"|
    ensures m[|"Course '"|..|"Course '"| + |name|] == name
  {
    "Course '" + name + "' removed successfully!"
  }

  /** `GET /catalog`: the list page shows every stored record in stored order,
      and none when the file does not exist yet. */
  method ShowCatalog(store: CatalogStore) returns (resp: Response)
    ensures resp.Render? && resp.page.CatalogPage?
    ensures store.file.None? ==> resp.page.courses == []
    ensures store.file.Some? ==> resp.page.courses == store.file.value
  {
    var courses := store.Load();
    resp := Render(CatalogPage(courses));
  }

  /** `GET /course/<code>`: the details page of the first record with that code,
      or a redirect to the list with a not-found error when there is none. */
  method CourseDetails(store: CatalogStore, code: string) returns (resp: Response)
    ensures CountCode(Contents(store.file), code) == 0 ==>
      resp == Redirect(ToCatalog, Flash(NotFoundMessage(code), Error))
    ensures forall i ::
      (0 <= i < |Contents(store.file)| && Contents(store.file)[i].code == code
       && forall j :: 0 <= j < i ==> Contents(store.file)[j].code != code)
      ==> resp == Render(DetailsPage(Contents(store.file)[i]))
  {
    var courses := store.Load();
    var course := Find(courses, code);
    if course.None? {
      return Redirect(ToCatalog, Flash(NotFoundMessage(code), Error));
    }
    resp := Render(DetailsPage(course.value));
    forall i | 0 <= i < |courses| && courses[i].code == code
        && (forall j :: 0 <= j < i ==> courses[j].code != code)
      ensures resp == Render(DetailsPage(courses[i]))
    {
      FindIsFirstMatch(courses, code, i);
    }
  }

  /** `GET /add` renders the blank form. `POST /add` either rejects the form,
      naming every missing required field and leaving the file alone, or appends
      the record built from the form and redirects to the list. */
  method AddCourse(store: CatalogStore, verb: HttpMethod, form: Form) returns (resp: Response)
    modifies store
    ensures verb == GET ==> resp == Render(AddCoursePage) && store.file == old(store.file)
    ensures verb == POST && Missing(form) != [] ==>
      store.file == old(store.file)
      && resp == Redirect(ToAddForm, Flash(RequiredMessage(Missing(form)), Error))
    ensures verb == POST && Missing(form) == [] ==>
      "name" in form && "code" in form && "instructor" in form
      && store.file == Some(old(Contents(store.file)) + [NewCourse(form)])
      && resp == Redirect(ToCatalog, Flash(AddedMessage(form["name"]), Success))
  {
    if verb == GET {
      return Render(AddCoursePage);
    }
    var missing := CollectMissing(form);
    if missing != [] {
      return Redirect(ToAddForm, Flash(RequiredMessage(missing), Error));
    }
    MissingCharacterised(form);
    store.SaveCourse(NewCourse(form));
    resp := Redirect(ToCatalog, Flash(AddedMessage(form["name"]), Success));
  }

  /** `POST /remove/<code>`: when some record has the code, every such record is
      filtered out, the file is overwritten, and the flash names the first of
      them. Otherwise the file is not written and a not-found error is flashed.
      Either way the response redirects to the list. */
  method RemoveCourse(store: CatalogStore, code: string) returns (resp: Response)
    modifies store
    ensures resp.Redirect? && resp.to == ToCatalog
    ensures CountCode(old(Contents(store.file)), code) == 0 ==>
      store.file == old(store.file)
      && resp.flash == Flash(NotFoundMessage(code), Error)
    ensures CountCode(old(Contents(store.file)), code) > 0 ==>
      store.file == Some(WithoutCode(old(Contents(store.file)), code))
      && resp.flash == Flash(RemovedMessage(Find(old(Contents(store.file)), code).value.name), Success)
  {
    var courses := store.Load();
    var toRemove := Find(courses, code);
    if toRemove.Some? {
      courses := WithoutCode(courses, code);
      store.Overwrite(courses);
      resp := Redirect(ToCatalog, Flash(RemovedMessage(toRemove.value.name), Success));
    } else {
      resp := Redirect(ToCatalog, Flash(NotFoundMessage(code), Error));
    }
  }
}
