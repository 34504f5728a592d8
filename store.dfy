/** The catalog file as shared mutable state. The file is either absent or holds
    the whole catalog; every mutation reads the whole catalog and overwrites the
    whole file. */
module Store {
  import opened Catalog

  /** What loading yields for a given file state: nothing stored reads as the
      empty catalog. */
  function Contents(file: Option<seq<Course>>): (courses: seq<Course>)
    ensures file.None? ==> courses == []
    ensures file.Some? ==> courses == file.value
  {
    match file
    case None => []
    case Some(courses) => courses
  }

  class CatalogStore {
    /** The catalog file: `None` while it does not exist, otherwise the records
        it holds, in stored order. */
    var file: Option<seq<Course>>

    /** A store whose file has not been created yet. */
    constructor ()
      ensures file == None
    {
      file := None;
    }

    /** `load_courses`: an absent file reads as the empty catalog and is not an
        error; otherwise the stored records come back in stored order. */
    method Load() returns (courses: seq<Course>)
      ensures file.None? ==> courses == []
      ensures file.Some? ==> courses == file.value
      ensures courses == Contents(file)
    {
      if file.None? {
        return [];
      }
      courses := file.value;
    }

    /** Replaces the file's whole content with `courses`, creating it if absent. */
    method Overwrite(courses: seq<Course>)
      modifies this
      ensures file == Some(courses)
    {
      file := Some(courses);
    }

    /** `save_courses`: loads the catalog, appends `data` and overwrites the file.
        Earlier records are kept in order, the catalog grows by one and `data` is
        last; no check is made that its code is new. */
    method SaveCourse(data: Course)
      modifies this
      ensures file.Some?
      ensures file.value == old(Contents(file)) + [data]
      ensures |file.value| == |old(Contents(file))| + 1
      ensures file.value[..|old(Contents(file))|] == old(Contents(file))
      ensures file.value[|file.value| - 1] == data
    {
      var courses := Load();
      courses := courses + [data];
      Overwrite(courses);
      assert courses[..|courses| - 1] == old(Contents(file));
    }
  }
}
