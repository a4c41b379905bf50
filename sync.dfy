/** The writes of an import run and their effect on the store.

    The store is the two tables the importer upserts into: `courses`, keyed
    by `code`, and `materials`, keyed by `external_id`. An upsert with a new
    key inserts a row; one with an existing key replaces the row's columns
    and keeps its generated id. Nothing is ever deleted. Whether the store
    rejects a write is a fixed function of the row (`Checks`).

    A run is a sequence of jobs, one per course folder in listing order,
    or a failed listing. Each job upserts the course, then upserts one
    material per collected file; the first error of any kind ends the run
    and leaves every earlier write in place. */
module Sync {
  import opened Wrappers
  import opened Text
  import opened Drive
  import opened TreeWalk
  import opened CourseInference
  import opened MaterialInference

  /** A row of `courses` as the importer writes it. */
  datatype CourseRow = CourseRow(code: string, name: string, department: string, description: string)

  /** A stored course: the id the store generated for it and its columns. */
  datatype CourseRecord = CourseRecord(id: nat, row: CourseRow)

  /** The `metadata` column of a material. */
  datatype MaterialMetadata = MaterialMetadata(
    path: seq<string>,
    mimeType: string,
    driveCreatedTime: string,
    driveModifiedTime: string)

  /** A row of `materials`. `fileSize` is None for JSON `null`, which is what
      a missing size and `NaN` are both sent as. */
  datatype MaterialRow = MaterialRow(
    courseId: nat,
    title: string,
    materialType: string,
    semester: Option<string>,
    year: Option<nat>,
    fileUrl: string,
    fileName: string,
    fileSize: Option<int>,
    source: string,
    externalId: string,
    metadata: MaterialMetadata)

  /** The two tables, and the id the next inserted course receives. */
  datatype Db = Db(courses: map<string, CourseRecord>, materials: map<string, MaterialRow>, nextId: nat)

  /** The error object the data-access layer returns for a rejected write. */
  datatype StoreError = StoreError(message: string)

  /** What ends a run early. */
  datatype ImportError = DriveFailure(driveError: DriveError) | StoreFailure(storeError: StoreError)

  /** Which writes the store rejects, and with what error. */
  datatype Checks = Checks(course: CourseRow -> Option<StoreError>, material: MaterialRow -> Option<StoreError>)

  // ---------------------------------------------------------------------------
  // Rows

  const DescriptionPrefix: string := "Imported automatically from Google Drive folder: "
  const DownloadPrefix: string := "https://drive.google.com/uc?id="
  const DownloadSuffix: string := "&export=download"
  const SourceName: string := "google-drive"

  /** The course row written for a course folder: the inferred code, name
      and department, and a description naming the folder as it is spelled
      on Drive (untrimmed). */
  function CourseRowFor(folder: DriveItem, departmentName: string): CourseRow {
    var info := InferCourseMetadata(folder.name, departmentName);
    CourseRow(info.code, info.name, info.department, DescriptionPrefix + folder.name)
  }

  function DownloadUrl(fileId: string): string {
    DownloadPrefix + fileId + DownloadSuffix
  }

  /** Different files get different download URLs. */
  lemma DownloadUrlInjective(a: string, b: string)
    requires DownloadUrl(a) == DownloadUrl(b)
    ensures a == b
  {
    var n := |DownloadPrefix|;
    assert |a| == |b|;
    assert a == DownloadUrl(a)[n..n + |a|];
    assert b == DownloadUrl(b)[n..n + |b|];
  }

  /** `Number.parseInt(s, 10)`, with None for `NaN`: leading whitespace is
      skipped, one sign is allowed, and the longest run of digits after it
      is read. */
  function ParseDecimal(s: string): Option<int> {
    var i := SkipWhile(s, 0, IsSpace);
    var negative := i < |s| && s[i] == '-';
    var j := if i < |s| && (s[i] == '-' || s[i] == '+') then i + 1 else i;
    var k := SkipWhile(s, j, IsDigit);
    if k == j then None
    else
      var v: int := DigitsValue(s[j..k]);
      Some(if negative then -v else v)
  }

  /** `parseInt` on leading whitespace, an optional sign, a run of digits
      and anything not starting with a digit: the signed value of the digits,
      or `NaN` (None) when there are no digits, with or without a sign. */
  lemma ParseDecimalParts(ws: string, sign: string, digits: string, rest: string)
    requires AllSpace(ws) && AllDigits(digits)
    requires |sign| <= 1 && (sign != [] ==> sign[0] == '+' || sign[0] == '-')
    requires rest == [] || !IsDigit(rest[0])
    requires sign == [] && digits == [] && rest != [] ==> !IsSpace(rest[0]) && rest[0] != '+' && rest[0] != '-'
    ensures ParseDecimal(ws + sign + digits + rest)
            == if digits == [] then None
               else Some(if sign == "-" then -(DigitsValue(digits) as int) else DigitsValue(digits))
  {
    var s := ws + sign + digits + rest;
    var i, j, k := |ws|, |ws| + |sign|, |ws| + |sign| + |digits|;
    LeadingSpaceEnds(ws, sign, digits, rest);
    DigitRunEnds(ws + sign, digits, rest);
    ParseDecimalAt(s, i, j, k, sign == "-", digits);
  }

  /** The whitespace ends where the sign, the digits or the rest begin, and
      the sign, if any, is the character there. */
  lemma LeadingSpaceEnds(ws: string, sign: string, digits: string, rest: string)
    requires AllSpace(ws) && AllDigits(digits)
    requires |sign| <= 1 && (sign != [] ==> sign[0] == '+' || sign[0] == '-')
    requires sign == [] && digits == [] && rest != [] ==> !IsSpace(rest[0]) && rest[0] != '+' && rest[0] != '-'
    ensures var s, i := ws + sign + digits + rest, |ws|;
            && SkipWhile(s, 0, IsSpace) == i
            && (|ws| + |sign| == if i < |s| && (s[i] == '-' || s[i] == '+') then i + 1 else i)
            && ((i < |s| && s[i] == '-') <==> sign == "-")
  {
    var s, i := ws + sign + digits + rest, |ws|;
    forall n | 0 <= n < i ensures IsSpace(s[n]) {
      assert s[n] == ws[n];
    }
    if sign != [] {
      assert s[i] == sign[0];
      assert sign == [sign[0]];
    } else if digits != [] {
      assert s[i] == digits[0];
    } else if rest != [] {
      assert s[i] == rest[0];
    }
    SkipWhileUnique(s, 0, i, IsSpace);
  }

  /** The digits run to where the rest begins. */
  lemma DigitRunEnds(u: string, digits: string, rest: string)
    requires AllDigits(digits) && (rest == [] || !IsDigit(rest[0]))
    ensures SkipWhile(u + digits + rest, |u|, IsDigit) == |u| + |digits|
    ensures (u + digits + rest)[|u|..|u| + |digits|] == digits
  {
    var s := u + digits + rest;
    var j, k := |u|, |u| + |digits|;
    assert s[j..k] == digits;
    forall n | j <= n < k ensures IsDigit(s[n]) {
      assert s[n] == s[j..k][n - j];
    }
    if rest != [] {
      assert s[k] == rest[0];
    }
    SkipWhileUnique(s, j, k, IsDigit);
  }

  /** `ParseDecimal` read off the positions it computes. */
  lemma ParseDecimalAt(s: string, i: nat, j: nat, k: nat, negative: bool, digits: string)
    requires i <= |s| && SkipWhile(s, 0, IsSpace) == i
    requires j == if i < |s| && (s[i] == '-' || s[i] == '+') then i + 1 else i
    requires negative == (i < |s| && s[i] == '-')
    requires j <= |s| && SkipWhile(s, j, IsDigit) == k && s[j..k] == digits
    ensures ParseDecimal(s) == if digits == [] then None
                               else Some(if negative then -(DigitsValue(digits) as int) else DigitsValue(digits))
  {
  }

  /** `file.size ? Number.parseInt(file.size, 10) : null`. */
  function FileSize(size: Option<string>): Option<int> {
    if size.None? || size.value == "" then None else ParseDecimal(size.value)
  }

  /** An empty size is falsy and gives null, which is also what `parseInt`
      gives for it (`NaN`): the size column is the parse of the size when
      Drive sends one and null when it does not. A size of decimal digits, as
      Drive sends it, is stored as its value. */
  lemma FileSizeParses(size: Option<string>)
    ensures FileSize(size) == if size.None? then None else ParseDecimal(size.value)
    ensures size.Some? && size.value != [] && AllDigits(size.value) ==> FileSize(size) == Some(DigitsValue(size.value))
  {
    if size == Some([]) {
      ParseDecimalParts([], [], [], []);
    } else if size.Some? && AllDigits(size.value) {
      ParseDecimalParts([], [], size.value, []);
      assert [] + [] + size.value + [] == size.value;
    }
  }

  /** The material row written for a collected file. */
  function MaterialRowFor(courseId: nat, file: TaggedFile): MaterialRow {
    var item := file.item;
    var term := ParseSemesterAndYear(item.name, file.pathSegments);
    MaterialRow(
      courseId,
      NormaliseTitle(item.name),
      TypeName(InferMaterialType(item.name, file.pathSegments)),
      term.semester,
      term.year,
      DownloadUrl(item.id),
      item.name,
      FileSize(item.size),
      SourceName,
      item.id,
      MaterialMetadata(file.pathSegments, item.mimeType, item.createdTime, item.modifiedTime))
  }
  /** A file's row carries the course id, is keyed by the file's Drive id,
      points at the file's download URL and names Google Drive as its source. */
  lemma MaterialRowKeys(courseId: nat, file: TaggedFile)
    ensures MaterialRowFor(courseId, file).courseId == courseId
    ensures MaterialRowFor(courseId, file).externalId == file.item.id
    ensures MaterialRowFor(courseId, file).fileUrl == DownloadUrl(file.item.id)
    ensures MaterialRowFor(courseId, file).source == SourceName
  {
  }

  /** The rows written for the collected files of a course, in order. */
  function MaterialRows(courseId: nat, files: seq<TaggedFile>): (r: seq<MaterialRow>)
    ensures |r| == |files|
  {
    seq(|files|, i requires 0 <= i < |files| => MaterialRowFor(courseId, files[i]))
  }

  // ---------------------------------------------------------------------------
  // Upserts

  /** `upsert(row, { onConflict: "code" })`. */
  function UpsertCourse(db: Db, row: CourseRow): (r: Db)
    ensures r.courses.Keys == db.courses.Keys + {row.code}
    ensures r.courses[row.code].row == row
    ensures forall c :: c in db.courses && c != row.code ==> r.courses[c] == db.courses[c]
    ensures r.materials == db.materials
  {
    if row.code in db.courses then
      db.(courses := db.courses[row.code := CourseRecord(db.courses[row.code].id, row)])
    else
      db.(courses := db.courses[row.code := CourseRecord(db.nextId, row)], nextId := db.nextId + 1)
  }

  /** `upsert(row, { onConflict: "external_id" })`. */
  function UpsertMaterial(db: Db, row: MaterialRow): (r: Db)
    ensures r.materials.Keys == db.materials.Keys + {row.externalId}
    ensures r.materials[row.externalId] == row
    ensures forall m :: m in db.materials && m != row.externalId ==> r.materials[m] == db.materials[m]
    ensures r.courses == db.courses && r.nextId == db.nextId
  {
    db.(materials := db.materials[row.externalId := row])
  }

  /** An existing course keeps its id; a new one gets the next id. */
  lemma UpsertCourseIds(db: Db, row: CourseRow)
    ensures row.code in db.courses ==> UpsertCourse(db, row).courses[row.code].id == db.courses[row.code].id
                                       && UpsertCourse(db, row).nextId == db.nextId
    ensures row.code !in db.courses ==> UpsertCourse(db, row).courses[row.code].id == db.nextId
                                        && UpsertCourse(db, row).nextId == db.nextId + 1
  {
  }

  // ---------------------------------------------------------------------------
  // Runs

  /** The work for one course folder, or a listing that failed. */
  datatype Job =
    | ImportCourse(row: CourseRow, files: Result<seq<TaggedFile>, DriveError>)
    | ListingFailed(error: DriveError)

  /** The store after a run, and the error that ended it, if any. */
  datatype Outcome = Outcome(db: Db, error: Option<ImportError>)

  /** The material upserts of one course, stopping at the first rejection. */
  function WriteMaterials(checks: Checks, db: Db, rows: seq<MaterialRow>): Outcome
    decreases |rows|
  {
    if rows == [] then Outcome(db, None)
    else
      match checks.material(rows[0])
      case Some(e) => Outcome(db, Some(StoreFailure(e)))
      case None => WriteMaterials(checks, UpsertMaterial(db, rows[0]), rows[1..])
  }

  /** The upserts stop at the first rejected row: the store is left as the
      rows before it made it, and nothing from that row on is written. */
  lemma {:induction false} WriteMaterialsStopsAt(checks: Checks, db: Db, rows: seq<MaterialRow>, k: nat)
    requires k < |rows| && checks.material(rows[k]).Some?
    requires forall j :: 0 <= j < k ==> checks.material(rows[j]).None?
    ensures WriteMaterials(checks, db, rows)
            == Outcome(WriteMaterials(checks, db, rows[..k]).db, Some(StoreFailure(checks.material(rows[k]).value)))
    decreases k
  {
    if k > 0 {
      var rest := rows[1..];
      assert checks.material(rows[0]).None?;
      forall j | 0 <= j < k - 1 ensures checks.material(rest[j]).None? {
        assert rest[j] == rows[j + 1];
      }
      assert rest[k - 1] == rows[k];
      WriteMaterialsStopsAt(checks, UpsertMaterial(db, rows[0]), rest, k - 1);
      assert rows[..k][0] == rows[0] && rows[..k][1..] == rest[..k - 1];
    }
  }

  /** The upserts of a course succeed exactly when the store accepts every row. */
  lemma {:induction false} WriteMaterialsSucceedsIffAccepted(checks: Checks, db: Db, rows: seq<MaterialRow>)
    ensures WriteMaterials(checks, db, rows).error.None? <==> forall j :: 0 <= j < |rows| ==> checks.material(rows[j]).None?
    decreases |rows|
  {
    if rows != [] {
      var rest := rows[1..];
      assert forall j :: 0 <= j < |rest| ==> rest[j] == rows[j + 1];
      if checks.material(rows[0]).None? {
        WriteMaterialsSucceedsIffAccepted(checks, UpsertMaterial(db, rows[0]), rest);
        assert (forall j :: 0 <= j < |rows| ==> checks.material(rows[j]).None?)
               <==> (forall j :: 0 <= j < |rest| ==> checks.material(rest[j]).None?);
      }
    }
  }

  /** `importCourseFolder`: the course upsert, then the collected files'
      upserts with the id the course got; a failed listing below the course
      ends the run after the course is written. */
  function RunJob(checks: Checks, db: Db, job: Job): Outcome {
    match job
    case ListingFailed(e) => Outcome(db, Some(DriveFailure(e)))
    case ImportCourse(row, files) =>
      match checks.course(row)
      case Some(e) => Outcome(db, Some(StoreFailure(e)))
      case None =>
        var withCourse := UpsertCourse(db, row);
        match files
        case Failure(e) => Outcome(withCourse, Some(DriveFailure(e)))
        case Success(fs) => WriteMaterials(checks, withCourse, MaterialRows(withCourse.courses[row.code].id, fs))
  }

  /** The jobs in order, stopping at the first that fails. */
  function RunPlan(checks: Checks, db: Db, plan: seq<Job>): Outcome
    decreases |plan|
  {
    if plan == [] then Outcome(db, None)
    else
      var first := RunJob(checks, db, plan[0]);
      if first.error.Some? then first else RunPlan(checks, first.db, plan[1..])
  }

  /** Running two plans one after the other is running their concatenation;
      in particular, once a plan fails, nothing after it runs. */
  lemma {:induction false} RunPlanAppend(checks: Checks, db: Db, p: seq<Job>, q: seq<Job>)
    ensures RunPlan(checks, db, p + q)
            == (var first := RunPlan(checks, db, p);
                if first.error.Some? then first else RunPlan(checks, first.db, q))
    decreases |p|
  {
    if p == [] {
      assert p + q == q;
    } else {
      assert (p + q)[0] == p[0] && (p + q)[1..] == p[1..] + q;
      var first := RunJob(checks, db, p[0]);
      if first.error.None? {
        RunPlanAppend(checks, first.db, p[1..], q);
      }
    }
  }

  /** A failing plan gives the same outcome whatever is appended to it. */
  lemma RunPlanAborts(checks: Checks, db: Db, p: seq<Job>, q: seq<Job>)
    requires RunPlan(checks, db, p).error.Some?
    ensures RunPlan(checks, db, p + q) == RunPlan(checks, db, p)
  {
    RunPlanAppend(checks, db, p, q);
  }

  // ---------------------------------------------------------------------------
  // Plans

  /** The job for a course folder in a department. */
  function CourseJob(folder: Tree, departmentName: string): Job {
    ImportCourse(CourseRowFor(folder.item, departmentName), CollectFiles(folder, []))
  }

  function CourseJobs(folders: seq<Tree>, departmentName: string): (r: seq<Job>)
    ensures |r| == |folders|
  {
    if folders == [] then [] else [CourseJob(folders[0], departmentName)] + CourseJobs(folders[1..], departmentName)
  }

  /** `importDepartmentFolder`: the department's folder children, each a
      course of the department named by the trimmed folder name. */
  function DepartmentPlan(department: Tree): seq<Job> {
    match department.listing
    case Unlisted(e) => [ListingFailed(e)]
    case Listed(kids) => CourseJobs(FolderChildren(kids), Trim(department.item.name))
  }

  function DepartmentPlans(departments: seq<Tree>): seq<Job> {
    if departments == [] then [] else DepartmentPlan(departments[0]) + DepartmentPlans(departments[1..])
  }

  /** `main` after the root folder is resolved: every department folder
      under the root, in listing order. */
  function ImportPlan(root: Tree): seq<Job> {
    match root.listing
    case Unlisted(e) => [ListingFailed(e)]
    case Listed(kids) => DepartmentPlans(FolderChildren(kids))
  }

  // ---------------------------------------------------------------------------
  // Nothing is deleted and ids never change

  /** `d` has every row of `z`, and every course of `z` has the same id in `d`. */
  ghost predicate Grows(z: Db, d: Db) {
    && z.courses.Keys <= d.courses.Keys
    && z.materials.Keys <= d.materials.Keys
    && (forall c :: c in z.courses ==> z.courses[c].id == d.courses[c].id)
  }

  lemma GrowsTransitive(a: Db, b: Db, c: Db)
    requires Grows(a, b) && Grows(b, c)
    ensures Grows(a, c)
  {
  }

  lemma {:induction false} WriteMaterialsGrows(checks: Checks, db: Db, rows: seq<MaterialRow>)
    ensures Grows(db, WriteMaterials(checks, db, rows).db)
    ensures WriteMaterials(checks, db, rows).db.courses == db.courses
    ensures WriteMaterials(checks, db, rows).db.nextId == db.nextId
    decreases |rows|
  {
    if rows != [] && checks.material(rows[0]).None? {
      WriteMaterialsGrows(checks, UpsertMaterial(db, rows[0]), rows[1..]);
    }
  }

  lemma RunJobGrows(checks: Checks, db: Db, job: Job)
    ensures Grows(db, RunJob(checks, db, job).db)
  {
    if job.ImportCourse? && checks.course(job.row).None? && job.files.Success? {
      var withCourse := UpsertCourse(db, job.row);
      WriteMaterialsGrows(checks, withCourse, MaterialRows(withCourse.courses[job.row.code].id, job.files.value));
    }
  }

  /** A run never removes a row and never changes a course's id: the store
      after it has every row the store before it had. */
  lemma {:induction false} RunPlanGrows(checks: Checks, db: Db, plan: seq<Job>)
    ensures Grows(db, RunPlan(checks, db, plan).db)
    decreases |plan|
  {
    if plan != [] {
      var first := RunJob(checks, db, plan[0]);
      RunJobGrows(checks, db, plan[0]);
      if first.error.None? {
        RunPlanGrows(checks, first.db, plan[1..]);
        GrowsTransitive(db, first.db, RunPlan(checks, first.db, plan[1..]).db);
      }
    }
  }

  // ---------------------------------------------------------------------------
  // Re-running a plan changes nothing

  /** `y` is a state of a second run whose first run went from `z` to `d`:
      it has exactly `d`'s keys and next id, and each of its rows is `d`'s
      row or, for a key the first run has reached by now, `z`'s row. */
  ghost predicate Shadows(y: Db, z: Db, d: Db) {
    && Grows(z, d)
    && y.nextId == d.nextId
    && y.courses.Keys == d.courses.Keys
    && y.materials.Keys == d.materials.Keys
    && (forall c :: c in y.courses ==> y.courses[c] == d.courses[c] || (c in z.courses && y.courses[c] == z.courses[c]))
    && (forall m :: m in y.materials ==> y.materials[m] == d.materials[m] || (m in z.materials && y.materials[m] == z.materials[m]))
  }

  lemma ShadowsUpsertCourse(y: Db, z: Db, d: Db, row: CourseRow)
    requires Shadows(y, z, d) && Grows(UpsertCourse(z, row), d)
    ensures Shadows(UpsertCourse(y, row), UpsertCourse(z, row), d)
    ensures UpsertCourse(y, row).courses[row.code] == UpsertCourse(z, row).courses[row.code]
  {
    var c := row.code;
    assert c in y.courses;
    assert y.courses[c].id == d.courses[c].id;
    assert UpsertCourse(z, row).courses[c].id == d.courses[c].id;
  }

  lemma ShadowsUpsertMaterial(y: Db, z: Db, d: Db, row: MaterialRow)
    requires Shadows(y, z, d) && Grows(UpsertMaterial(z, row), d)
    ensures Shadows(UpsertMaterial(y, row), UpsertMaterial(z, row), d)
  {
  }

  lemma {:induction false} ShadowsWriteMaterials(checks: Checks, y: Db, z: Db, d: Db, rows: seq<MaterialRow>)
    requires Shadows(y, z, d) && Grows(WriteMaterials(checks, z, rows).db, d)
    ensures Shadows(WriteMaterials(checks, y, rows).db, WriteMaterials(checks, z, rows).db, d)
    ensures WriteMaterials(checks, y, rows).error == WriteMaterials(checks, z, rows).error
    decreases |rows|
  {
    if rows != [] && checks.material(rows[0]).None? {
      var z' := UpsertMaterial(z, rows[0]);
      WriteMaterialsGrows(checks, z', rows[1..]);
      GrowsTransitive(z', WriteMaterials(checks, z', rows[1..]).db, d);
      ShadowsUpsertMaterial(y, z, d, rows[0]);
      ShadowsWriteMaterials(checks, UpsertMaterial(y, rows[0]), z', d, rows[1..]);
    }
  }

  lemma ShadowsRunJob(checks: Checks, y: Db, z: Db, d: Db, job: Job)
    requires Shadows(y, z, d) && Grows(RunJob(checks, z, job).db, d)
    ensures Shadows(RunJob(checks, y, job).db, RunJob(checks, z, job).db, d)
    ensures RunJob(checks, y, job).error == RunJob(checks, z, job).error
  {
    if job.ImportCourse? && checks.course(job.row).None? {
      var row := job.row;
      var zc := UpsertCourse(z, row);
      var yc := UpsertCourse(y, row);
      if job.files.Success? {
        var rows := MaterialRows(zc.courses[row.code].id, job.files.value);
        WriteMaterialsGrows(checks, zc, rows);
        GrowsTransitive(zc, WriteMaterials(checks, zc, rows).db, d);
        ShadowsUpsertCourse(y, z, d, row);
        ShadowsWriteMaterials(checks, yc, zc, d, rows);
      } else {
        ShadowsUpsertCourse(y, z, d, row);
      }
    }
  }

  lemma {:induction false} ShadowsRunPlan(checks: Checks, y: Db, z: Db, d: Db, plan: seq<Job>)
    requires Shadows(y, z, d) && Grows(RunPlan(checks, z, plan).db, d)
    ensures Shadows(RunPlan(checks, y, plan).db, RunPlan(checks, z, plan).db, d)
    ensures RunPlan(checks, y, plan).error == RunPlan(checks, z, plan).error
    decreases |plan|
  {
    if plan != [] {
      var zt := RunJob(checks, z, plan[0]);
      if zt.error.None? {
        RunPlanGrows(checks, zt.db, plan[1..]);
        GrowsTransitive(zt.db, RunPlan(checks, zt.db, plan[1..]).db, d);
      }
      ShadowsRunJob(checks, y, z, d, plan[0]);
      if zt.error.None? {
        ShadowsRunPlan(checks, RunJob(checks, y, plan[0]).db, zt.db, d, plan[1..]);
      }
    }
  }

  lemma ShadowsItself(y: Db, d: Db)
    requires Shadows(y, d, d)
    ensures y == d
  {
    assert y.courses == d.courses;
    assert y.materials == d.materials;
  }

  /** Importing the same tree again into the store a run left behind
      inserts nothing and changes nothing, and ends the same way. */
  lemma RunPlanIdempotent(checks: Checks, db: Db, plan: seq<Job>)
    ensures var first := RunPlan(checks, db, plan);
            RunPlan(checks, first.db, plan) == first
  {
    var d := RunPlan(checks, db, plan).db;
    RunPlanGrows(checks, db, plan);
    assert Shadows(d, db, d);
    ShadowsRunPlan(checks, d, db, d, plan);
    ShadowsItself(RunPlan(checks, d, plan).db, d);
  }

  // ---------------------------------------------------------------------------
  // Every material belongs to a stored course

  predicate HasCourseWithId(db: Db, id: nat) {
    exists c :: c in db.courses && db.courses[c].id == id
  }

  /** Course ids are distinct and below the next id, each course is stored
      under its own code, each material under its own external id, and
      every material's course id is the id of a stored course. */
  ghost predicate WellFormed(db: Db) {
    && (forall c :: c in db.courses ==> db.courses[c].id < db.nextId && db.courses[c].row.code == c)
    && (forall c, c' :: c in db.courses && c' in db.courses && c != c' ==> db.courses[c].id != db.courses[c'].id)
    && (forall m :: m in db.materials ==> db.materials[m].externalId == m && HasCourseWithId(db, db.materials[m].courseId))
  }

  lemma {:induction false} WriteMaterialsWellFormed(checks: Checks, db: Db, rows: seq<MaterialRow>)
    requires WellFormed(db)
    requires forall k :: 0 <= k < |rows| ==> HasCourseWithId(db, rows[k].courseId)
    ensures WellFormed(WriteMaterials(checks, db, rows).db)
    decreases |rows|
  {
    if rows != [] && checks.material(rows[0]).None? {
      var next := UpsertMaterial(db, rows[0]);
      forall m | m in next.materials ensures HasCourseWithId(next, next.materials[m].courseId) {
        var id := next.materials[m].courseId;
        var c :| c in db.courses && db.courses[c].id == id;
        assert next.courses[c].id == id;
      }
      forall k | 0 <= k < |rows| - 1 ensures HasCourseWithId(next, rows[1..][k].courseId) {
        assert rows[1..][k] == rows[k + 1];
      }
      WriteMaterialsWellFormed(checks, next, rows[1..]);
    }
  }

  lemma UpsertCourseWellFormed(db: Db, row: CourseRow)
    requires WellFormed(db)
    ensures WellFormed(UpsertCourse(db, row))
  {
    var next := UpsertCourse(db, row);
    forall m | m in next.materials ensures HasCourseWithId(next, next.materials[m].courseId) {
      var c :| c in db.courses && db.courses[c].id == db.materials[m].courseId;
      assert next.courses[c].id == db.courses[c].id;
    }
  }

  lemma RunJobWellFormed(checks: Checks, db: Db, job: Job)
    requires WellFormed(db)
    ensures WellFormed(RunJob(checks, db, job).db)
  {
    if job.ImportCourse? && checks.course(job.row).None? {
      var withCourse := UpsertCourse(db, job.row);
      UpsertCourseWellFormed(db, job.row);
      if job.files.Success? {
        var id := withCourse.courses[job.row.code].id;
        var rows := MaterialRows(id, job.files.value);
        assert HasCourseWithId(withCourse, id);
        forall k | 0 <= k < |rows| ensures HasCourseWithId(withCourse, rows[k].courseId) {
          MaterialRowKeys(id, job.files.value[k]);
        }
        WriteMaterialsWellFormed(checks, withCourse, rows);
      }
    }
  }

  /** A run keeps the store well formed: in particular, whatever it writes
      and wherever it stops, every material refers to a stored course. */
  lemma {:induction false} RunPlanWellFormed(checks: Checks, db: Db, plan: seq<Job>)
    requires WellFormed(db)
    ensures WellFormed(RunPlan(checks, db, plan).db)
    decreases |plan|
  {
    if plan != [] {
      RunJobWellFormed(checks, db, plan[0]);
      var first := RunJob(checks, db, plan[0]);
      if first.error.None? {
        RunPlanWellFormed(checks, first.db, plan[1..]);
      }
    }
  }

  // ---------------------------------------------------------------------------
  // What one course writes

  /** No later row has the same key as `rows[i]`. */
  ghost predicate LastWithKey(rows: seq<MaterialRow>, i: nat)
    requires i < |rows|
  {
    forall j :: i < j < |rows| ==> rows[j].externalId != rows[i].externalId
  }

  /** When no upsert is rejected, each row is stored under its key (a later
      row with the same key overwrites it). */
  lemma {:induction false} WriteMaterialsStores(checks: Checks, db: Db, rows: seq<MaterialRow>)
    requires WriteMaterials(checks, db, rows).error.None?
    ensures var r := WriteMaterials(checks, db, rows).db;
            forall i :: 0 <= i < |rows| && LastWithKey(rows, i)
              ==> rows[i].externalId in r.materials && r.materials[rows[i].externalId] == rows[i]
    decreases |rows|
  {
    if rows != [] {
      var next := UpsertMaterial(db, rows[0]);
      var rest := rows[1..];
      WriteMaterialsStores(checks, next, rest);
      WriteMaterialsKeeps(checks, next, rest);
      var r := WriteMaterials(checks, db, rows).db;
      forall i | 0 <= i < |rows| && LastWithKey(rows, i)
        ensures rows[i].externalId in r.materials && r.materials[rows[i].externalId] == rows[i]
      {
        if i > 0 {
          assert rest[i - 1] == rows[i];
          assert LastWithKey(rest, i - 1);
        } else {
          forall k | 0 <= k < |rest| ensures rest[k].externalId != rows[0].externalId {
            assert rest[k] == rows[k + 1];
          }
        }
      }
    }
  }

  /** The upserts of a course leave the materials under other keys as they were. */
  lemma {:induction false} WriteMaterialsKeeps(checks: Checks, db: Db, rows: seq<MaterialRow>)
    ensures var r := WriteMaterials(checks, db, rows).db;
            forall m :: m in db.materials && (forall i :: 0 <= i < |rows| ==> rows[i].externalId != m)
              ==> m in r.materials && r.materials[m] == db.materials[m]
    decreases |rows|
  {
    if rows != [] && checks.material(rows[0]).None? {
      var next := UpsertMaterial(db, rows[0]);
      var rest := rows[1..];
      WriteMaterialsKeeps(checks, next, rest);
      var r := WriteMaterials(checks, db, rows).db;
      forall m | m in db.materials && (forall i :: 0 <= i < |rows| ==> rows[i].externalId != m)
        ensures m in r.materials && r.materials[m] == db.materials[m]
      {
        assert rows[0].externalId != m;
        forall k | 0 <= k < |rest| ensures rest[k].externalId != m {
          assert rest[k] == rows[k + 1];
        }
      }
    }
  }

  /** No later file has the same id as `files[i]`. */
  ghost predicate LastWithId(files: seq<TaggedFile>, i: nat)
    requires i < |files|
  {
    forall j :: i < j < |files| ==> files[j].item.id != files[i].item.id
  }

  /** A course job that runs to the end stores the course row under its
      code and, for each collected file, its row, carrying the course's id. */
  lemma RunJobStores(checks: Checks, db: Db, row: CourseRow, files: seq<TaggedFile>)
    requires RunJob(checks, db, ImportCourse(row, Success(files))).error.None?
    ensures var r := RunJob(checks, db, ImportCourse(row, Success(files))).db;
            && row.code in r.courses && r.courses[row.code].row == row
            && forall i :: 0 <= i < |files| && LastWithId(files, i)
                 ==> files[i].item.id in r.materials
                     && r.materials[files[i].item.id] == MaterialRowFor(r.courses[row.code].id, files[i])
  {
    var withCourse := UpsertCourse(db, row);
    var id := withCourse.courses[row.code].id;
    var rows := MaterialRows(id, files);
    WriteMaterialsGrows(checks, withCourse, rows);
    WriteMaterialsStores(checks, withCourse, rows);
    forall i | 0 <= i < |files| && LastWithId(files, i) ensures LastWithKey(rows, i) && rows[i] == MaterialRowFor(id, files[i]) {
      MaterialRowKeys(id, files[i]);
      forall j | i < j < |rows| ensures rows[j].externalId != rows[i].externalId {
        MaterialRowKeys(id, files[j]);
      }
    }
  }
}
