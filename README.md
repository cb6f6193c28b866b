# Course model of tmc-server, in Dafny

This project models the `Course` record of tmc-server (`app/models/course.rb`).
A course is backed by a source repository. The model covers four parts of it:

- **Exercise-group completion.** Exercise names of the form `<group>-<leaf>` put
  an exercise into a group. For every group the course reports how many
  available points match the group and how many of them each user was awarded.
  The two SQL queries become functions over in-memory tables: exercise rows
  joined with their available-point names, and `awarded_points` rows. The loop
  over the groups stays a loop (`GroupCompletion.CompletionByUser`).
- **Visibility and the `ongoing` / `expired` scopes.** These are rules over
  `hidden`, `hide_after`, `hidden_if_registered_after` and the user's
  administrator flag, guest flag and creation time.
- **Cache layout.** Each course has a directory `<root>/course/<name>-<cache_version>`
  with the five leaves `clone`, `solution`, `stub`, `stub_zip` and `solution_zip`.
- **The record itself.** This is a `class Course` with its validations, the
  default source backend set after initialisation, and `options=`.

Inputs from outside the model are parameters:

- the current time (`now`);
- the file store root (`storeRoot`);
- the date parser `DateAndTimeUtils.to_time`, whose source is not part of this
  model (`toTime`);
- the names of the other courses, for the uniqueness validation (`takenNames`).

Instants are integers on one clock. A nil `name` or `source_url` is modelled as
`""`, because Rails' presence, length and format validations treat the two the
same.

Group matching uses SQL `LIKE` with `!` as the escape character, which is what
the escaping at line 208 was written for. The query itself has no `ESCAPE '!'`
clause; see "## Findings". `LIKE` is case-sensitive here, as in PostgreSQL.

The model follows the code in two places where a reader might expect something
else:

- Only the space character is forbidden in a name. A tab or another white-space
  character inside a name passes (`Courses.TabInNameAccepted`).
- A course whose `hide_after` is `T` is already hidden from non-administrators
  at the instant `T` itself. The code compares with `hide_after > now`.

## Model

| member | source | states |
|---|---|---|
| `ExerciseGroups.GroupKey` | app/models/course.rb:200 | A non-empty key is the part of the name before a dash that has at least one character before it, at least one after it, and no dash after it. The key is `""` exactly when no such dash exists. |
| `ExerciseGroups.SplitIsUnique` | app/models/course.rb:200 | The expression `/^(.+)-[^-]+$/` can split a name in at most one place, the last dash. |
| `ExerciseGroups.GroupKeyAtSplit` | app/models/course.rb:200 | When the expression splits the name at `i`, the key is the name's first `i` characters, so the result is deterministic. |
| `ExerciseGroups.GroupKeyIsDashPrefix` | app/models/course.rb:200 | A non-empty key followed by `-` is a prefix of the name it came from. |
| `ExerciseGroups.DashlessNameHasEmptyGroup` | app/models/course.rb:200 | A name without a dash belongs to the group `""`. |
| `ExerciseGroups.GroupKeyExamples` | app/models/course.rb:200 | `"algo-week1"` gives `"algo"` and `"a--b"` gives `"a-"`. `"standalone"`, `"a-"` and `"-x"` give `""`. |
| `ExerciseGroups.Dedup` | app/models/course.rb:200 | `uniq` keeps exactly the elements of its input, and no element twice. |
| `LikePattern.EscapeGroup` | app/models/course.rb:208 | The escaped group is longer than the group by the number of `!`, `%` and `_` in it. Its first character is the group's first character or the escape `!`. |
| `LikePattern.UnescapeEscapeGroup` | app/models/course.rb:208 | Removing each escape from the escaped group gives back the group. |
| `LikePattern.GroupPattern` | app/models/course.rb:208 | The pattern has the escaped group's length plus 2 and always ends in `-%`. |
| `LikePattern.EscapedPrefixMatches` | app/models/course.rb:208 | Under `LIKE` with escape `!`, the escaped group matches its own characters literally and nothing else, whatever follows it in the pattern. |
| `LikePattern.GroupPatternMatchesPrefix` | app/models/course.rb:214 | The pattern of group `g` matches exactly the names that start with `g + "-"`. |
| `LikePattern.PercentMatchesAll` | app/models/course.rb:214 | A trailing `%` matches any remainder. |
| `LikePattern.Like` | app/models/course.rb:214 | A pattern with no `%`, no `_` and no escape character matches exactly the string equal to it. |
| `GroupCompletion.CourseExerciseNames` | app/models/course.rb:200 | The names the groups are derived from are exactly the names of this course's exercises: every such name is there, and no other course's. |
| `GroupCompletion.DerivedGroups` | app/models/course.rb:200 | After `uniq` the loop visits each group once. |
| `GroupCompletion.DerivedGroupsAreOwnGroups` | app/models/course.rb:200 | A string is a visited group exactly when it is the group of some exercise of this course. |
| `GroupCompletion.OwnGroupIsDerived` | app/models/course.rb:200-203 | The group of every exercise of this course is among the groups the loop visits. |
| `GroupCompletion.CompletionByUser` | app/models/course.rb:197-235 | The loop over the de-duplicated groups builds exactly the specified result. A group is present only when its query found available points. |
| `GroupCompletion.CompletionOverStep` | app/models/course.rb:203-233 | One more loop iteration adds the group's entry when its query found points, and otherwise leaves the hash as it was (`next`). |
| `GroupCompletion.CompletionOver` | app/models/course.rb:203-233 | After the loop has visited some groups, a visited group has an entry exactly when an exercise of this course named `group-...` has an available point. Every stored `available_points` is positive. |
| `GroupCompletion.CompletionSpec` | app/models/course.rb:197-235 | Every key of the returned hash is the group of some exercise of this course, and every `available_points` is positive. |
| `GroupCompletion.GroupEntry` | app/models/course.rb:217-232 | The stored `available_points` is the number of (exercise, point) rows of this course's exercises named `group-...`. Every `points_by_user` value is at least 1. |
| `GroupCompletion.MatchedPoints` | app/models/course.rb:210-217 | Every point name the first query returns belongs to an exercise of this course whose name the group's `LIKE` pattern matches. |
| `GroupCompletion.MatchedPointsArePrefixPoints` | app/models/course.rb:210-217 | The first query returns the available points of exactly this course's exercises whose names start with `group-`, one row per (exercise, point). |
| `GroupCompletion.EmptyGroupTakesDashNames` | app/models/course.rb:208-217 | The group `""` has pattern `-%`, so it only collects the points of exercises whose names start with `-`. |
| `GroupCompletion.DashlessNameMatchesNoGroup` | app/models/course.rb:214 | A name without a dash is matched by no group's pattern, so such an exercise contributes to no group. |
| `GroupCompletion.MatchedPointsCover` | app/models/course.rb:211-217 | A matching exercise of this course contributes all of its available points, counted with multiplicity. |
| `GroupCompletion.ResultGroupsHaveMatchingExercise` | app/models/course.rb:203-232 | A group is a result key exactly when it is a derived group and an exercise of this course named `group-...` has an available point. Its `available_points` is the number of matching (exercise, point) rows, duplicates included. |
| `GroupCompletion.OwnGroupAppears` | app/models/course.rb:200-232 | An exercise of this course with a non-empty group and an available point makes its group appear. The group's count covers all of that exercise's points. |
| `GroupCompletion.AvailablePointsCountDuplicates` | app/models/course.rb:217-230 | Two exercises of one group offering the same point name give `available_points` 2, not 1. |
| `GroupCompletion.CountAwards` | app/models/course.rb:220-227 | A user's `COUNT(*)` never exceeds the number of counted rows over all users. |
| `GroupCompletion.TotalAwards` | app/models/course.rb:220-227 | The counted rows are at most all award rows. |
| `GroupCompletion.AwardUsers` | app/models/course.rb:220-227 | `GROUP BY user_id` yields a row for exactly the users whose count is positive. |
| `GroupCompletion.PointsByUser` | app/models/course.rb:220-227 | Every value of `by_user` is between 1 and the number of counted rows. A user without a key has a count of 0. |
| `GroupCompletion.CountAwardsPositive` | app/models/course.rb:220-227 | A user's count is positive exactly when the user has an award row of this course whose name is in the matched set. |
| `GroupCompletion.PointsByUserKeys` | app/models/course.rb:220-227 | `points_by_user` has a key exactly for the users with such a row. Every value is at least 1, and an absent user has no such rows. |
| `GroupCompletion.AwardUserList` | app/models/course.rb:221-225 | `GROUP BY user_id` yields each user with a counted row exactly once. |
| `GroupCompletion.PointsByUserTotal` | app/models/course.rb:220-231 | Summed over its keys, each taken once, the values of `points_by_user` equal the number of counted award rows. |
| `GroupCompletion.PointsByUserBounded` | app/models/course.rb:220-230 | Award rows are unique per (course, user, name), the unique index of `awarded_points`. Under that index no user's count exceeds the number of distinct matched names, and hence `available_points`. |
| `GroupCompletion.DemoCourseCompletion` | app/models/course.rb:197-235 | Exercises `algo-1` {p1, p2} and `algo-2` {p3}, with user 1 holding p1 and p3 and user 2 holding p2, give exactly `{"algo" => (3, {1 => 2, 2 => 1})}`. |
| `GroupCompletion.AsWrittenPatternMissesOwnExercise` | app/models/course.rb:208-214 | Without `!` as the escape character, the pattern of group `a_b` does not match `a_b-1`, the exercise the group came from. |
| `Text.IntToString` | app/models/course.rb:101 | Interpolating `cache_version` gives a non-empty string. For non-negative versions it holds only digits, which read back as the version. Otherwise it is `-` followed by the digits of the magnitude. |
| `Text.IntToStringInjective` | app/models/course.rb:101 | Distinct versions render as distinct strings. |
| `Text.NatToString` | app/models/course.rb:101 | The digits of a version have no leading zero. The string is a single digit exactly for values below 10, and it starts with `0` only for 0. |
| `CachePaths.CachePath` | app/models/course.rb:96-102 | `cache_path` starts with `cache_root + "/"`, followed by `name-version`. |
| `CachePaths.DirName` | app/models/course.rb:104-141 | Each leaf name is non-empty and contains no `/`. |
| `CachePaths.CacheDirPath` | app/models/course.rb:104-141 | Each leaf path is `cache_path + "/"` followed by the leaf's fixed name. |
| `CachePaths.CacheRoot` | app/models/course.rb:96-98 | `cache_root` is a single non-empty directory directly under the file store root. |
| `CachePaths.CacheDirsDistinct` | app/models/course.rb:104-141 | The five leaf paths of a course are pairwise distinct. |
| `CachePaths.CachePathInjective` | app/models/course.rb:100-102 | For non-negative versions, equal cache paths mean equal names and equal versions. |
| `CachePaths.CachePathVersionInjective` | app/models/course.rb:100-102 | Two versions of the same course never share a cache path. |
| `CachePaths.CacheDirPathInjective` | app/models/course.rb:100-141 | For non-negative versions, a leaf path determines the course name, the version and the leaf. |
| `CachePaths.NegativeVersionCollides` | app/models/course.rb:100-102 | With a negative version the layout is ambiguous: (`a`, -5) and (`a-`, 5) share a cache path. |
| `Courses.NameErrors` | app/models/course.rb:11-18 | A name fails when it is blank, taken, shorter than 1 or longer than 40 characters, or contains a space. Each error is present exactly when its own condition holds, and no other error appears. |
| `Courses.TabInNameAccepted` | app/models/course.rb:15-17 | The format rule forbids only the space character. `"a\tb"` passes every name validation. |
| `Courses.ValidNameNestsCacheDirs` | app/models/course.rb:100-107 | A name that passes validation may contain `/`. The cache directory of `b-0/clone/x` version 1 then lies inside the clone directory of `b` version 0. |
| `Courses.Course.CachePathOf` | app/models/course.rb:100-102 | A record's `cache_path` is `cache_root + "/"` followed by its own name, `-` and its own `cache_version`. |
| `Courses.Course.CacheDirPathOf` | app/models/course.rb:104-141 | Each of a record's leaf paths is its own `cache_path + "/"` followed by the leaf's fixed name. |
| `Courses.DistinctCoursesDistinctCaches` | app/models/course.rb:100-102 | Two records with different names and non-negative cache versions never share a cache directory. |
| `Courses.Course.CheckSourceBackend` | app/models/course.rb:239-243 | The record passes exactly when `source_backend` is `git`. Otherwise the only error is on `source_backend`. |
| `Courses.Course.Errors` | app/models/course.rb:11-21 | The errors are the name errors plus a blank `source_url` and an invalid backend, and nothing else. A record has no errors exactly when its name passes, its `source_url` is present and its backend is `git`. |
| `Courses.Course.constructor` | app/models/course.rb:22 | After initialisation `source_backend` is set: the given value, or `git` when none was given. |
| `Courses.Course.SetDefaultSourceBackend` | app/models/course.rb:245-247 | `source_backend ||= 'git'`: a missing backend becomes `git`, and a present one is kept. |
| `Courses.Course.SetHideAfter` | app/models/course.rb:55-57 | `hide_after` becomes the end-of-day reading of its input. |
| `Courses.Course.SetHiddenIfRegisteredAfter` | app/models/course.rb:59-61 | `hidden_if_registered_after` becomes the start-of-day reading of its input. |
| `Courses.Course.SetOptions` | app/models/course.rb:63-78 | A blank date option is replaced by nil before it goes through its setter, and a present one is passed as given. `hidden` becomes the truthiness of its option and `spreadsheet_key` is copied. No other field changes. |
| `Courses.Course.VisibleTo` | app/models/course.rb:47-53 | An administrator always sees the course. Anyone else sees it only when it is not hidden and is in the ongoing scope. If `hidden_if_registered_after` is set, the user must also be a non-guest created strictly before it. Under those conditions the course is visible. |
| `Courses.ExpiredAt` | app/models/course.rb:44-45 | A row is in the expired scope exactly when it is not in the ongoing scope. |
| `Courses.OngoingAt` | app/models/course.rb:44 | A row without `hide_after` is always ongoing. A row with `hide_after` T is ongoing exactly at the instants strictly before T. |
| `Courses.OngoingIsMonotone` | app/models/course.rb:44-45 | A course leaves the ongoing scope at most once: ongoing at a later instant means ongoing earlier, and expired stays expired. |
| `Courses.Blank` | app/models/course.rb:64-74 | `blank?` on an option is the negation of truthiness for nil and booleans. A string is blank exactly when it holds only white space, so `""` is blank. |
| `Courses.Truthy` | app/models/course.rb:76 | `!!x` is false only for nil and false. |
| `Courses.OngoingScope` | app/models/course.rb:44 | `Course.ongoing` holds exactly the courses whose `hide_after` is null or after `now`. No row appears more often than in the table. |
| `Courses.ExpiredScope` | app/models/course.rb:45 | `Course.expired` holds exactly the courses whose `hide_after` is set and at or before `now`. No row appears more often than in the table. |
| `Courses.ScopesPartition` | app/models/course.rb:44-45 | At a fixed instant every course is in exactly one of the two scopes, and the scope sizes add up to the table size. |

## Left out

- `destroy` (lines 33-42) is not modelled. It runs raw SQL and relies on the database to cascade the deletes.
- `delete_cache` and `git_revision` (lines 109-122, 147-149) are not modelled. They remove directories and run a `git` subprocess.
- `refresh`, `gdocs_sheets` and `refresh_gdocs_worksheet` (lines 87-94, 143-145) are not modelled. They call CourseRefresher and GDocsExport, which are not part of this model.
- `DateAndTimeUtils.to_time` is not part of this model. It is the parameter `toTime`, so a parse error it might raise is not modelled either.
- `FileStore.root` is not part of this model. It is the parameter `storeRoot`.
- `time_of_first_submission`, `time_of_last_submission`, `reviews_required`, `reviews_requested` and `submissions_to_review` (lines 159-191) are not modelled. They are plain ORM filters.
- `default_options` (lines 80-85) is not modelled. It is a constant hash and none of the modelled members use it.
- The associations and their `:dependent => :delete_all` (lines 24-31) are not modelled.
- Uniqueness of names is modelled only as "the name is not in `takenNames`".
- `GroupKey` reads the regular expression for names without line breaks. Ruby's `^` and `$` are line anchors, so names containing line breaks are outside the model.
- Ordering is not modelled. The returned Ruby hash keeps group insertion order, and the SQL rows come in database order. The model returns an unordered `map`.
- Column type casting by ActiveRecord is not modelled. `hidden`, `spreadsheet_key` and the dates are stored as given.
- The texts of validation messages are not modelled. Only which attribute fails is modelled.
- `blank?` is modelled as "empty or only ASCII white space".
- Database integer widths are not modelled. Counts and versions are unbounded, and a nil `cache_version` is not modelled.
- Failures of the two SQL queries, which propagate in the source, are not modelled.
- `Courses.OngoingScope` and `Courses.ExpiredScope`: the contracts state which rows are in a scope and that no row appears more often than in the table. They do not state the row order, which the SQL scopes leave unspecified, since they have no `ORDER BY`.
- `GroupCompletion.PointsByUserTotal`: the sum is taken along `AwardUserList`, which lists each key of `points_by_user` exactly once. It is not taken over the unordered map directly.

## Findings

| source | as written | input that shows it | evidently intended | confidence | as-written member | corrected member |
|---|---|---|---|---|---|---|
| app/models/course.rb:208-214 | The pattern escapes `!`, `%` and `_` with `!`, but the `LIKE` has no `ESCAPE '!'` clause. The database then reads `!` as a literal character: standard SQL has no escape character, and PostgreSQL's default is `\`. | Exercise `a_b-1` with an available point. Its group is `a_b` and its pattern is `a!_b-%`, which does not match `a_b-1`, so the group is silently dropped. Groups containing `%` or `!` are dropped the same way. | The group's pattern matches exactly the names starting with `group-`, with the group read literally. | not executed; depends on the database's default escape character | `GroupCompletion.AsWrittenPatternMissesOwnExercise` | `LikePattern.GroupPatternMatchesPrefix` |
