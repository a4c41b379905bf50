/** The importer's control flow: `importCourseFolder`,
    `importDepartmentFolder` and the department loop of `main`, as methods of
    the store they write to. Each is proved to leave the store, and to end,
    exactly as the run of its jobs in `Sync` says. */
module Importer {
  import opened Wrappers
  import opened Text
  import opened Drive
  import opened Pagination
  import opened TreeWalk
  import opened Sync

  /** The two tables behind the data-access client, and the writes they
      reject. */
  class Store {
    var db: Db
    const checks: Checks

    constructor(initial: Db, checks: Checks)
      ensures db == initial && this.checks == checks
    {
      db := initial;
      this.checks := checks;
    }

    /** `from("courses").upsert(row, { onConflict: "code" }).select().single()`:
        the stored course, or the store's error with nothing written. */
    method UpsertCourse(row: CourseRow) returns (r: Result<CourseRecord, StoreError>)
      modifies this
      ensures checks.course(row).Some? ==> r == Failure(checks.course(row).value) && db == old(db)
      ensures checks.course(row).None? ==> db == Sync.UpsertCourse(old(db), row) && r == Success(db.courses[row.code])
    {
      var rejected := checks.course(row);
      if rejected.Some? {
        return Failure(rejected.value);
      }
      db := Sync.UpsertCourse(db, row);
      return Success(db.courses[row.code]);
    }

    /** `from("materials").upsert(row, { onConflict: "external_id" })`. */
    method UpsertMaterial(row: MaterialRow) returns (error: Option<StoreError>)
      modifies this
      ensures error == checks.material(row)
      ensures db == if error.Some? then old(db) else Sync.UpsertMaterial(old(db), row)
    {
      error := checks.material(row);
      if error.None? {
        db := Sync.UpsertMaterial(db, row);
      }
    }

    /** `importCourseFolder(courseFolder, departmentName, ...)`, where `t` is
        the course folder's tree as the endpoint `src` lists it. */
    method ImportCourseFolder(src: PageSource, courseFolder: DriveItem, departmentName: string, ghost t: Tree, ghost fuel: nat)
      returns (error: Option<ImportError>)
      requires t.item == courseFolder && ListsAs(src, t, fuel)
      modifies this
      ensures Outcome(db, error) == RunJob(checks, old(db), CourseJob(t, departmentName))
    {
      var course := UpsertCourse(CourseRowFor(courseFolder, departmentName));
      if course.Failure? {
        return Some(StoreFailure(course.error));
      }
      var collected := CollectFilesRecursively(src, courseFolder.id, [], t, fuel);
      if collected.Failure? {
        return Some(DriveFailure(collected.error));
      }
      error := ImportFiles(course.value.id, collected.value);
    }

    /** The file loop of `importCourseFolder`: one material upsert per
        collected file, with the id of the course just written, until one is
        rejected. */
    method ImportFiles(courseId: nat, files: seq<TaggedFile>) returns (error: Option<ImportError>)
      modifies this
      ensures Outcome(db, error) == WriteMaterials(checks, old(db), MaterialRows(courseId, files))
    {
      ghost var rows := MaterialRows(courseId, files);
      var i := 0;
      while i < |files|
        invariant 0 <= i <= |files|
        invariant WriteMaterials(checks, old(db), rows) == WriteMaterials(checks, db, rows[i..])
      {
        assert rows[i..][0] == rows[i] == MaterialRowFor(courseId, files[i]);
        assert rows[i..][1..] == rows[i + 1..];
        var rejected := UpsertMaterial(MaterialRowFor(courseId, files[i]));
        if rejected.Some? {
          return Some(StoreFailure(rejected.value));
        }
        i := i + 1;
      }
      return None;
    }

    /** `importDepartmentFolder(departmentFolder, ...)`: the folder children
        of the department, listed through `ListFolderChildren` and imported
        one after the other under the trimmed department name. `t` is the
        department's tree as the endpoint `src` lists it. */
    method ImportDepartmentFolder(src: PageSource, department: DriveItem, ghost t: Tree, ghost fuel: nat)
      returns (error: Option<ImportError>)
      requires t.item == department && ListsAs(src, t, fuel)
      modifies this
      ensures Outcome(db, error) == RunPlan(checks, old(db), DepartmentPlan(t))
    {
      var departmentName := Trim(department.name);
      var courseFolders := ListFolderChildren(src, department.id, fuel);
      if courseFolders.Failure? {
        return Some(DriveFailure(courseFolders.error));
      }
      var folders := FolderItems(courseFolders.value);
      ghost var kids := t.listing.children;
      ghost var subtrees := FolderChildren(kids);
      assert |folders| == |subtrees| by { ItemsOfFolderChildren(kids); }
      var i := 0;
      while i < |folders|
        invariant 0 <= i <= |folders| == |subtrees|
        invariant RunPlan(checks, old(db), DepartmentPlan(t))
                  == RunPlan(checks, db, CourseJobs(subtrees[i..], departmentName))
      {
        ghost var sub := subtrees[i];
        FolderSubtreeLists(src, t, fuel, i);
        assert subtrees[i..][0] == sub && subtrees[i..][1..] == subtrees[i + 1..];
        error := ImportCourseFolder(src, folders[i], departmentName, sub, fuel);
        if error.Some? {
          return;
        }
        i := i + 1;
      }
      return None;
    }

    /** The department loop of `main`: the root's children listed through
        `ListFolderChildren`, and every folder among them imported as a
        department, in listing order, until one fails. `root` is the tree of
        the folder `rootId` as the endpoint `src` lists it. */
    method ImportAll(src: PageSource, rootId: string, ghost root: Tree, ghost fuel: nat)
      returns (error: Option<ImportError>)
      requires root.item.id == rootId && ListsAs(src, root, fuel)
      modifies this
      ensures Outcome(db, error) == RunPlan(checks, old(db), ImportPlan(root))
    {
      var children := ListFolderChildren(src, rootId, fuel);
      if children.Failure? {
        return Some(DriveFailure(children.error));
      }
      var departments := FolderItems(children.value);
      ghost var kids := root.listing.children;
      ghost var subtrees := FolderChildren(kids);
      assert |departments| == |subtrees| by { ItemsOfFolderChildren(kids); }
      var i := 0;
      while i < |departments|
        invariant 0 <= i <= |departments| == |subtrees|
        invariant RunPlan(checks, old(db), ImportPlan(root)) == RunPlan(checks, db, DepartmentPlans(subtrees[i..]))
      {
        ghost var sub := subtrees[i];
        FolderSubtreeLists(src, root, fuel, i);
        assert subtrees[i..][0] == sub && subtrees[i..][1..] == subtrees[i + 1..];
        RunPlanAppend(checks, db, DepartmentPlan(sub), DepartmentPlans(subtrees[i + 1..]));
        error := ImportDepartmentFolder(src, departments[i], sub, fuel);
        if error.Some? {
          return;
        }
        i := i + 1;
      }
      return None;
    }
  }
}
