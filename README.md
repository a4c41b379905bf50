# Google Drive importer, modelled in Dafny

This project models the core of `scripts/import-google-drive.js`, the script that copies a
course library from Google Drive into the site's database. The root Drive folder holds one
folder per department. Each department folder holds one folder per course. Every file below a
course folder becomes a material of that course.

The modules follow the script:

- `Text` covers the JavaScript string operations the script relies on. These are the `\s` class,
  `trim`, `split(/\s+/)`, `join` and ASCII case mapping.
- `Drive` defines Drive items and the folder tree, one consistent snapshot of the Drive. It
  also defines the folder filter applied to the root listing and to each department listing.
- `CourseInference` models `inferCourseMetadata`. The heading regex is a hand-written scanner,
  and it is proved equivalent to an index-based description of what the regex matches.
- `MaterialInference` models `MATERIAL_TYPE_PATTERNS`, `inferMaterialType`,
  `parseSemesterAndYear`, `capitalize` and `normaliseTitle`.
- `Pagination` models `listFolderChildren`. It is a loop over an abstract files-list endpoint,
  proved equal to a recursive definition of the listing. `ListsAs` says that the endpoint lists
  a folder, and every folder below it, as a given tree.
- `TreeWalk` models `collectFilesRecursively`. It is a recursive method with the script's two
  loops that fetches every listing through `listFolderChildren`. It is proved equal to a
  functional walk of the tree the endpoint lists.
- `Sync` defines the two tables the importer writes, keyed by `code` and `external_id`, and the
  upserts. It also defines an import run as a sequence of course jobs that stops at the first
  error. About runs it proves idempotence, abort on the first error, growth and referential
  integrity.
- `Importer` holds the imperative control flow in a class `Store` whose field is the database:
  `importCourseFolder`, `importDepartmentFolder` and the department loop of `main`. Each method
  is proved to leave the store, and to end, exactly as the run in `Sync` does.

The model follows the code as written, including three behaviours a reader might not expect:

- The separator class of the course heading regex at line 117 is the en-dash in a mis-encoded
  form. It holds `-` and the three characters U+00E2, U+20AC and U+201C, so a real en-dash
  (U+2013) is not a separator. `CourseInference.IsSeparator` encodes the class exactly as written.
- A season word with no year after it still sets the semester, and the year then comes from the
  first `20dd` anywhere, or is null.
- A blank folder name gives an empty course code and an empty name.

## Model

| member | source | states |
|---|---|---|
| Text.Upper | scripts/import-google-drive.js:120 | `toUpperCase` keeps the length and upper-cases each ASCII letter in place |
| Text.Lower | scripts/import-google-drive.js:166 | `toLowerCase` keeps the length and lower-cases each ASCII letter in place |
| Text.UpperConcat | scripts/import-google-drive.js:127 | Upper-casing distributes over concatenation |
| Text.TrimStart | scripts/import-google-drive.js:116 | The result is a suffix of the input, only whitespace is removed, and the result does not start with whitespace |
| Text.TrimEnd | scripts/import-google-drive.js:116 | The result is a prefix of the input, only whitespace is removed, and the result does not end with whitespace |
| Text.Trim | scripts/import-google-drive.js:116 | `trim` never lengthens its input and leaves no whitespace at either end |
| Text.TrimRemovesOnlySpace | scripts/import-google-drive.js:116 | The trim is a slice of the input with only whitespace before and after it |
| Text.TrimTrimmed | scripts/import-google-drive.js:121 | A string with no whitespace at its ends is its own trim |
| Text.TrimSkipsLeadingSpace | scripts/import-google-drive.js:121 | Dropping leading whitespace does not change the trim |
| Text.SplitOnSpace | scripts/import-google-drive.js:126 | `split(/\s+/)` gives at least one piece, and no piece holds whitespace |
| Text.JoinWith | scripts/import-google-drive.js:127-128 | `join(sep)`: the pieces with the separator between consecutive ones. It is a definition; `CourseInference.JoinSplitAt` states how it splits |
| Text.CollapseSpaces | scripts/import-google-drive.js:126-128 | Every maximal whitespace run becomes one space, so the string never grows. `Text.SplitJoinCollapses` proves that splitting and joining give it |
| Text.SplitJoinCollapses | scripts/import-google-drive.js:126-128 | Joining the pieces of `split(/\s+/)` with single spaces turns every whitespace run into one space and keeps every other character |
| Text.SplitTrimmedPiecesNonEmpty | scripts/import-google-drive.js:126 | A trimmed string splits into non-empty pieces; only the empty string splits into `[""]` |
| Text.CollapseAtFirstSpace | scripts/import-google-drive.js:126-128 | Collapsing keeps the text before the first whitespace run, puts one space for that run, and collapses the rest |
| Drive.FolderItems | scripts/import-google-drive.js:200 | The folder filter keeps exactly the listed items whose mime type is the folder type, and never lengthens the listing |
| Drive.FolderChildren | scripts/import-google-drive.js:280 | The same filter on the tree's children keeps exactly the children that are folders |
| Drive.FolderItemsAppend | scripts/import-google-drive.js:280 | The filter keeps listing order: it distributes over concatenation |
| Drive.ItemsOfFolderChildren | scripts/import-google-drive.js:199-203 | The folder children of the tree carry, in order, exactly the items the filter keeps from the listing |
| CourseInference.HeadingIndices | scripts/import-google-drive.js:117 | When the scanner accepts a name, its indices split the name as the heading regex does |
| CourseInference.HeadingIndicesComplete | scripts/import-google-drive.js:117-118 | Every split the regex admits is found, with the same code span |
| CourseInference.ReplaceInHeadingCode | scripts/import-google-drive.js:120 | `replace(/\s+/, " ")` on the code puts one space between letters and digits when there was whitespace, and changes nothing else |
| CourseInference.InferCourseMetadata | scripts/import-google-drive.js:115-134 | The department is passed through unchanged |
| CourseInference.ReplaceFirstSpaceRun | scripts/import-google-drive.js:120 | `replace(/\s+/, " ")`: the first whitespace run becomes one space. It is a definition; `ReplaceInHeadingCode` states its effect on a course code |
| CourseInference.SplitCourse | scripts/import-google-drive.js:126-133 | The split fallback. It is a definition; `FallbackBranch`, `FallbackReassembles` and `BlankFolderName` state its result |
| CourseInference.SeparatorBranch | scripts/import-google-drive.js:115-124 | When the trimmed name matches the heading pattern, the code is letters and digits upper-cased with at most one space between them, and the name is the trimmed, non-empty title |
| CourseInference.HeadingTitle | scripts/import-google-drive.js:121 | The captured title, once trimmed, starts after the whitespace that follows the separator and is non-empty |
| CourseInference.NoHeadingFallsBack | scripts/import-google-drive.js:117-128 | Without a heading match, the split fallback decides the result |
| CourseInference.FallbackBranch | scripts/import-google-drive.js:126-133 | The code is the first two words upper-cased and joined by one space. The name is the remaining words joined by single spaces, or the whole trimmed name when there are fewer than three words |
| CourseInference.FallbackReassembles | scripts/import-google-drive.js:126-133 | With three words or more, code, a space and the upper-cased name give back the whole upper-cased name with its whitespace runs collapsed |
| CourseInference.JoinSplitAt | scripts/import-google-drive.js:127-128 | Joining a list equals joining its two halves with the separator between them |
| CourseInference.BlankFolderName | scripts/import-google-drive.js:126-133 | A blank folder name gives an empty code and an empty name |
| MaterialInference.ContainsFrom | scripts/import-google-drive.js:147 | The scan from `i` finds a keyword exactly when it occurs, ignoring ASCII case, at `i` or later |
| MaterialInference.Test | scripts/import-google-drive.js:147 | `/kw/i.test(h)` holds exactly when the keyword occurs somewhere in `h`, ignoring case |
| MaterialInference.TestAny | scripts/import-google-drive.js:147 | `patterns.some(test)` holds exactly when one of the group's keywords occurs |
| MaterialInference.TypeNameInjective | scripts/import-google-drive.js:136-151 | The six type names are distinct |
| MaterialInference.MaterialTypePatternsDistinct | scripts/import-google-drive.js:136-142 | The table's five types are distinct and none is `other` |
| MaterialInference.FirstMatchingTypeRange | scripts/import-google-drive.js:146-151 | The result is `other` or the type of one of the table's groups |
| MaterialInference.FirstMatchingTypeAt | scripts/import-google-drive.js:146-150 | First match wins: the result is a group's type exactly when that group hits and no earlier group does |
| MaterialInference.FirstMatchingTypeOther | scripts/import-google-drive.js:146-151 | The result is `other` exactly when no group hits |
| MaterialInference.ExamTakesPriority | scripts/import-google-drive.js:137-149 | An exam keyword anywhere in the path or the name makes the file an exam |
| MaterialInference.OtherOnlyWithoutKeywords | scripts/import-google-drive.js:144-151 | `other` is returned exactly when no keyword of any group occurs in the path or the name |
| MaterialInference.InferMaterialType | scripts/import-google-drive.js:144-152 | The first group of the table with a keyword in the haystack gives the type, else `other`. It is a definition; `FirstMatchingTypeAt`, `ExamTakesPriority` and `OtherOnlyWithoutKeywords` state its result |
| MaterialInference.SeasonAt | scripts/import-google-drive.js:156 | The alternative that matches at a position is a season word, and it is absent only when no season word matches there |
| MaterialInference.FirstSeason | scripts/import-google-drive.js:156 | The match of the season regex is the leftmost position where a season word occurs |
| MaterialInference.FirstYear | scripts/import-google-drive.js:157 | `/(20\d{2})/` matches at the leftmost occurrence of `20dd`, and does not match when there is none |
| MaterialInference.DigitsValue | scripts/import-google-drive.js:161 | The value of `n` decimal digits is below 10 to the power `n` |
| MaterialInference.DigitsValueFour | scripts/import-google-drive.js:161 | The value of four digits is their positional sum |
| MaterialInference.YearValueRange | scripts/import-google-drive.js:157-161 | A `20dd` year is parsed to a value in 2000..2099 |
| MaterialInference.Capitalize | scripts/import-google-drive.js:165-167 | `capitalize` keeps the length |
| MaterialInference.CapitalizeSeason | scripts/import-google-drive.js:160-167 | Whatever the case of the matched season word, `capitalize` gives its canonical name, one of Spring, Summer, Fall and Winter |
| MaterialInference.SemesterNames | scripts/import-google-drive.js:160 | Each season word capitalises to Spring, Summer, Fall or Winter |
| MaterialInference.YearAfter | scripts/import-google-drive.js:156 | `\s*(\d{4})?` after position `i` captures exactly when four digits follow the whitespace run there, and it then captures those four digits |
| MaterialInference.AdjacentYear | scripts/import-google-drive.js:156 | The year group captures exactly when four digits follow the leftmost season word after whitespace only, and it then captures those four digits |
| MaterialInference.SeasonWordsDiffer | scripts/import-google-drive.js:156 | At most one season word matches at a position |
| MaterialInference.LeftmostSeasonUnique | scripts/import-google-drive.js:156 | The leftmost season word is the match the season regex finds, with that alternative |
| MaterialInference.NoYearFollowsSeason | scripts/import-google-drive.js:156 | Without a season match, no year follows a season |
| MaterialInference.YearFollowsFirstSeason | scripts/import-google-drive.js:156 | Four digits after the leftmost season word follow the season word the scanner finds |
| MaterialInference.FallbackYear | scripts/import-google-drive.js:157-161 | A fallback year exists exactly when `20dd` occurs. It is then the value of the leftmost occurrence and lies in 2000..2099 |
| MaterialInference.ParseSemesterAndYear | scripts/import-google-drive.js:154-163 | The semester from the leftmost season word and the year from the digits after it or else the leftmost `20dd`. It is a definition; `SemesterIffSeason`, `SemesterIsLeftmostSeason` and `YearSources` state its result |
| MaterialInference.SemesterIffSeason | scripts/import-google-drive.js:154-162 | The semester is set exactly when a season word occurs in the path or the name, with or without a year |
| MaterialInference.SemesterIsLeftmostSeason | scripts/import-google-drive.js:154-167 | A set semester is the capitalised form of the leftmost season word |
| MaterialInference.LeftmostSeason | scripts/import-google-drive.js:156 | The season word the scanner finds has no season word before it |
| MaterialInference.SemesterOfFirstSeason | scripts/import-google-drive.js:156-160 | The season word the regex finds, in whatever case, becomes the semester under its canonical name |
| MaterialInference.AdjacentYearNeedsSeason | scripts/import-google-drive.js:156-161 | A year after a season is only taken when a season occurs |
| MaterialInference.YearSources | scripts/import-google-drive.js:154-163 | When four digits follow the leftmost season word after whitespace only, the year is their value, below 10000. When none follow it, the year is the value of the leftmost `20dd`. The year is null exactly when neither occurs |
| MaterialInference.LastDot | scripts/import-google-drive.js:170 | Finds the last '.' of the name, or reports that there is none |
| MaterialInference.StripExtension | scripts/import-google-drive.js:170 | Only a suffix of the name is removed; `StripExtensionRemovesExtension` says which |
| MaterialInference.StripExtensionRemovesExtension | scripts/import-google-drive.js:170 | Only a final dot followed by a non-empty, dot-free suffix is removed; a name without one is kept whole |
| MaterialInference.ReplaceDashRuns | scripts/import-google-drive.js:170 | `replace(/[_-]+/g, " ")` leaves no '_' or '-'; the step lemmas below fix what each run becomes |
| MaterialInference.ReplaceDashRunsKeepsNonSeparators | scripts/import-google-drive.js:170 | The replacement keeps every character that is neither whitespace, '_' nor '-', in order |
| MaterialInference.ReplaceDashRunsIdentity | scripts/import-google-drive.js:170 | A name without '_' or '-' is not changed by the replacement |
| MaterialInference.ReplaceDashRunsNoDashPrefix | scripts/import-google-drive.js:170 | Text before the first '_' or '-' is kept unchanged |
| MaterialInference.ReplaceDashRunsFromRun | scripts/import-google-drive.js:170 | A maximal run of '_' and '-' at the front becomes exactly one space, and the replacement goes on after the run |
| MaterialInference.ReplaceDashRunsAtFirstRun | scripts/import-google-drive.js:170 | The first maximal run of '_' and '-' becomes exactly one space, the text before it is kept, and the rest is replaced the same way |
| MaterialInference.ReplaceDashRunsExample | scripts/import-google-drive.js:170 | `a_b--c` becomes `a b c`: one space per run, whatever its length |
| MaterialInference.TrimKeepsNonSeparators | scripts/import-google-drive.js:170 | `trim` keeps every non-whitespace character, in order |
| MaterialInference.NormaliseTitle | scripts/import-google-drive.js:169-171 | Strip the extension, replace the '_'/'-' runs, then trim. It is a definition; the three lemmas below and `NormaliseTitleExample` state its result |
| MaterialInference.NormaliseTitleShape | scripts/import-google-drive.js:169-171 | A title has no '_' or '-' and no whitespace at either end |
| MaterialInference.NormaliseTitleKeepsNonSeparators | scripts/import-google-drive.js:169-171 | The title keeps, in order, every character of the name without its extension other than whitespace, '_' and '-' |
| MaterialInference.NormaliseTitleFixesPlainNames | scripts/import-google-drive.js:169-171 | A name with no separator, no dot and no whitespace at its ends is its own title |
| MaterialInference.NormaliseTitleExample | scripts/import-google-drive.js:169-171 | `a_b--c.pdf` normalises to `a b c`: the extension is dropped and each run becomes one space |
| Pagination.FetchPages | scripts/import-google-drive.js:95-113 | The listing: the first request carries no token, the pages are followed while the next token is non-empty, and the first failure aborts. None means the pages did not end within the bound. It is a definition; `FetchPagesFuel`, `ListingOfTrace` and `ListingFailsOnError` state its meaning |
| Pagination.FetchPagesFuel | scripts/import-google-drive.js:99-110 | Once the pages end within a number of requests, more requests change nothing |
| Pagination.ListFolderChildren | scripts/import-google-drive.js:95-113 | The loop returns the listing `FetchPages` defines: the files of every page, or the error of the first failed request |
| Pagination.FolderSubtreeLists | scripts/import-google-drive.js:189-203 | The `i`th folder child of a folder the endpoint lists as a tree is listed as its own subtree, and it is the `i`th item the folder filter keeps |
| Pagination.ListingOfTrace | scripts/import-google-drive.js:95-113 | The first request carries no token and each later one carries the previous page's next token. The loop stops at the first page without a non-empty next token, and the listing is every page's files in request order |
| Pagination.ListingFailsOnError | scripts/import-google-drive.js:99-110 | A request that fails after pages with next tokens makes the whole listing fail with its error |
| TreeWalk.CollectFiles | scripts/import-google-drive.js:173-195 | The walk: the direct files, then each sub-folder's walk with the folder's name added to the path, failing with the first failed listing. It is a definition; the lemmas below state its result |
| TreeWalk.DirectFiles | scripts/import-google-drive.js:178-187 | The direct files are exactly the listed non-folder items, each tagged with `ancestors`, and are at most as many as the children |
| TreeWalk.SplitChildren | scripts/import-google-drive.js:175-187 | The first loop puts the folder children into `folders` and the other children, tagged with `ancestors`, into `files`, both in listing order |
| TreeWalk.CollectFilesRecursively | scripts/import-google-drive.js:173-195 | Listing every folder through `ListFolderChildren`, the recursive method returns exactly the walk `CollectFiles` of the tree the endpoint lists |
| TreeWalk.CollectFoldersOfFolders | scripts/import-google-drive.js:189-192 | Walking the filtered folders equals walking the children, since only folders are walked |
| TreeWalk.DirectFilesAppend | scripts/import-google-drive.js:178-187 | Tagging the direct files distributes over concatenation of the children |
| TreeWalk.CollectFilesSucceedsIffAllListed | scripts/import-google-drive.js:173-195 | The walk succeeds exactly when every folder below the start lists successfully |
| TreeWalk.CollectFoldersSucceedIffAllListed | scripts/import-google-drive.js:189-192 | The sub-folder walks succeed exactly when every folder child and every folder below it lists |
| TreeWalk.CollectFilesMembers | scripts/import-google-drive.js:173-195 | A successful walk returns exactly the non-folder items below the start, each tagged with the folder names on its way there |
| TreeWalk.CollectFoldersMembers | scripts/import-google-drive.js:178-192 | The direct files and the sub-folder walks together are exactly the files in or below the children |
| TreeWalk.CollectFilesShape | scripts/import-google-drive.js:182-190 | Every returned item is a non-folder whose path starts with the ancestors passed in |
| TreeWalk.FileBelowShape | scripts/import-google-drive.js:182-190 | Any file below a folder is a non-folder whose path extends that folder's path |
| TreeWalk.DirectFilesFirst | scripts/import-google-drive.js:189-194 | A folder's own files come first in the result, in listing order |
| Sync.DownloadUrlInjective | scripts/import-google-drive.js:235 | Different file ids give different download URLs |
| Sync.ParseDecimal | scripts/import-google-drive.js:248 | `Number.parseInt(s, 10)` with `NaN` as null. It is a definition; `ParseDecimalParts` states its behaviour |
| Sync.ParseDecimalParts | scripts/import-google-drive.js:248 | `parseInt` skips leading whitespace, reads one optional '+' or '-' and then the digit run. It gives the signed value of the digits, or `NaN` (null) when no digit follows, with or without a sign |
| Sync.FileSize | scripts/import-google-drive.js:248 | `file.size ? parseInt(file.size, 10) : null`. It is a definition; `FileSizeParses` states its result |
| Sync.FileSizeParses | scripts/import-google-drive.js:248 | The size column is the parse of the size when Drive sends one and null when it does not. An empty size is falsy and gives null, and `parseInt` gives `NaN` for it too. A size of decimal digits is stored as its value |
| Sync.CourseRowFor | scripts/import-google-drive.js:208-219 | The inferred code, name and department, and a description naming the folder as spelled on Drive. It is a definition; `RunJobStores` states where it is stored |
| Sync.MaterialRowFor | scripts/import-google-drive.js:231-257 | The inferred type, semester, year and title, the download URL, the parsed size and the metadata. It is a definition; `MaterialRowKeys` states its keys |
| Sync.MaterialRowKeys | scripts/import-google-drive.js:240-250 | A material row carries the course id, is keyed by the file id, points at the file's download URL and names `google-drive` as its source |
| Sync.UpsertCourse | scripts/import-google-drive.js:211-223 | The course upsert on `code` stores the row under its code and leaves other courses and all materials alone |
| Sync.UpsertMaterial | scripts/import-google-drive.js:237-259 | The material upsert on `external_id` stores the row under its key and leaves other materials, the courses and the id counter alone |
| Sync.UpsertCourseIds | scripts/import-google-drive.js:211-223 | An existing course keeps its id; a new course gets the next id |
| Sync.MaterialRows | scripts/import-google-drive.js:231-259 | There is one row per collected file |
| Sync.WriteMaterials | scripts/import-google-drive.js:231-264 | The material upserts in order, stopping at the first rejected row. It is a definition; the `WriteMaterials` lemmas below state its result |
| Sync.WriteMaterialsStopsAt | scripts/import-google-drive.js:231-264 | At the first rejected row the loop stops: the store is what the rows before it made, and nothing from that row on is written |
| Sync.WriteMaterialsSucceedsIffAccepted | scripts/import-google-drive.js:231-264 | The material loop ends without error exactly when every row is accepted |
| Sync.CourseJobs | scripts/import-google-drive.js:202-204 | There is one job per course folder |
| Sync.RunJob | scripts/import-google-drive.js:207-265 | The course upsert, then the files' upserts with the course's id; a failed listing ends the job after the course is written. It is a definition; `RunJobStores`, `RunJobGrows` and `RunJobWellFormed` state its result |
| Sync.RunPlan | scripts/import-google-drive.js:202-204 | The jobs in order, stopping at the first that fails. It is a definition; `RunPlanAppend`, `RunPlanAborts` and `RunPlanIdempotent` state its result |
| Sync.DepartmentPlan | scripts/import-google-drive.js:197-205 | The department's folder children, each a course job under the trimmed department name, or the failed listing. It is a definition that `ImportDepartmentFolder` is proved against |
| Sync.ImportPlan | scripts/import-google-drive.js:279-285 | Every department folder under the root in listing order, or the failed listing. It is a definition that `ImportAll` is proved against |
| Sync.RunPlanAppend | scripts/import-google-drive.js:282-285 | Running two parts of a run one after the other is running them together, and after a failure nothing more runs |
| Sync.RunPlanAborts | scripts/import-google-drive.js:225-227 | A run that has failed ends the same way whatever would have come after it |
| Sync.WriteMaterialsGrows | scripts/import-google-drive.js:231-264 | The material loop removes no row and leaves the courses and the id counter alone |
| Sync.RunJobGrows | scripts/import-google-drive.js:207-265 | A course import removes no row and changes no course's id |
| Sync.RunPlanGrows | scripts/import-google-drive.js:279-285 | A run removes no row and changes no course's id |
| Sync.ShadowsUpsertCourse | scripts/import-google-drive.js:211-223 | Repeating a course upsert in a second run gives the record the first run stored |
| Sync.ShadowsUpsertMaterial | scripts/import-google-drive.js:237-259 | Repeating a material upsert in a second run keeps the second run in step with the first |
| Sync.ShadowsWriteMaterials | scripts/import-google-drive.js:231-264 | The second run's material loop stays in step with the first and ends the same way |
| Sync.ShadowsRunJob | scripts/import-google-drive.js:207-265 | The second run's course import stays in step with the first and ends the same way |
| Sync.ShadowsRunPlan | scripts/import-google-drive.js:279-285 | The second run stays in step with the first and ends the same way |
| Sync.ShadowsItself | scripts/import-google-drive.js:279-285 | A second run that has caught up with the first is in the first run's final state |
| Sync.RunPlanIdempotent | scripts/import-google-drive.js:207-265 | Importing the same Drive tree again into the store a run left behind changes nothing, creates no duplicate keys and ends the same way |
| Sync.WriteMaterialsWellFormed | scripts/import-google-drive.js:237-259 | Material upserts for a stored course keep the store well formed |
| Sync.UpsertCourseWellFormed | scripts/import-google-drive.js:211-223 | The course upsert keeps ids distinct and below the counter, and keeps every material pointing at a stored course |
| Sync.RunJobWellFormed | scripts/import-google-drive.js:207-265 | A course import keeps the store well formed: its materials carry the id of the course written first |
| Sync.RunPlanWellFormed | scripts/import-google-drive.js:279-285 | A run keeps the store well formed wherever it stops |
| Sync.WriteMaterialsStores | scripts/import-google-drive.js:231-264 | When no upsert is rejected, each row is stored under its key, and a later row with the same key wins |
| Sync.WriteMaterialsKeeps | scripts/import-google-drive.js:231-264 | Materials under keys the loop does not write are left as they were |
| Sync.RunJobStores | scripts/import-google-drive.js:207-265 | A course import that ends without error stores the course row under its code and each file's row under the file id, with the course's id |
| Importer.Store.constructor | scripts/import-google-drive.js:273 | The store starts with the given tables and rejection rules |
| Importer.Store.UpsertCourse | scripts/import-google-drive.js:211-227 | Either the store's error with nothing written, or the upserted course and its record |
| Importer.Store.UpsertMaterial | scripts/import-google-drive.js:237-263 | Either the store's error with nothing written, or the upserted row |
| Importer.Store.ImportCourseFolder | scripts/import-google-drive.js:207-265 | The course upsert, then the recursive walk through the endpoint, then the file loop. The method ends, and leaves the store, as the course job's run over the tree the endpoint lists |
| Importer.Store.ImportFiles | scripts/import-google-drive.js:231-264 | The file loop leaves the store, and ends, as the material upserts of its rows |
| Importer.Store.ImportDepartmentFolder | scripts/import-google-drive.js:197-205 | The department's folder children, listed through the endpoint, are imported in listing order under the trimmed department name, stopping at the first error |
| Importer.Store.ImportAll | scripts/import-google-drive.js:279-285 | The root's children, listed through the endpoint, are each imported as a department when they are folders, in listing order, stopping at the first error |

## Left out

- Token acquisition (`buildJwtAssertion`, `fetchAccessToken`, lines 16-66) is left out: RSA signing, base64url and HTTP belong to the platform.
- `driveRequest` (lines 68-86) is left out. The files-list endpoint is a function parameter (`Pagination.PageSource`) from folder id and page token to a page or an error. The query string, `pageSize` and `orderBy` decide only what that function returns. The walk and the importer fetch every listing through `ListFolderChildren`.
- `getFolderMetadata` and the root lookup (lines 88-93, 276) are left out. `Importer.Store.ImportAll` receives the root folder's id.
- The Drive is a snapshot: the endpoint lists every folder as one fixed tree, within a known number of requests (`Pagination.ListsAs`). Changes to the Drive during an import are not modelled.
- Environment variables, `requireEnv`, the guard on `GOOGLE_DRIVE_ROOT_FOLDER_ID` (lines 6-14, 268-270), `console` output and `process.exit` (lines 287-293) are left out.
- `async`/`await` is left out: every call is awaited in sequence, so the methods run in sequence.
- The Supabase client is left out: SQL, `.select().single()` and the generated column values. The store is two maps plus a counter for course ids. Whether a write is rejected is a fixed function of the row (`Sync.Checks`).
- The `metadata` column is a record (`Sync.MaterialMetadata`); its JSON encoding is not modelled.
- A files-list response without a `files` array is not modelled. Spreading `undefined` at line 108 would throw.
- Pagination.ListFolderChildren: requires that the pages end within a known number of requests. A Drive that returned next tokens forever would make the source loop forever, and that case is not modelled.
- Text.Upper: upper-cases ASCII letters only. `toUpperCase` also maps non-ASCII letters, so course codes with such letters are not modelled exactly. For the case-insensitive regexes, whose patterns are ASCII, ASCII folding is exact.
- MaterialInference.Capitalize: cases ASCII letters only, for the same reason as `Text.Upper`. It is only ever applied to a season word, which is ASCII.
- Sync.ParseDecimal: `Number.parseInt` yields a double, which rounds integers above 2^53. The model's sizes are unbounded integers.
- The remaining regex semantics are not modelled beyond the patterns the script uses. Each pattern is a scanner over `seq<char>`.
