/**
 * The `Course` record (app/models/course.rb): its validations, the
 * `after_initialize` default for the source backend, `options=`, the
 * visibility rule and the `ongoing`/`expired` scopes.
 *
 * Instants are integers on one clock; `Time.now` is the parameter `now`.
 * `DateAndTimeUtils.to_time` is the function parameter `toTime`.
 */
module Courses {
  import opened Wrappers
  import opened Text
  import opened CachePaths

  /** What `visible_to?` asks of a user. */
  datatype User = User(administrator: bool, guest: bool, createdAt: int)

  /** A value of the options hash: nil (also a missing key), a boolean or a string. */
  datatype Value = Nil | Bool(b: bool) | Str(s: string)

  /**
   * Ruby's `Object#blank?` on an options value: nil and false are blank,
   * true is not, and a string is blank when it holds only white space.
   */
  function Blank(v: Value): (blank: bool)
    ensures !v.Str? ==> (blank <==> !Truthy(v))
    ensures v.Str? ==> (blank <==> IsBlank(v.s))
    ensures v == Str("") ==> blank
  {
    match v
    case Nil => true
    case Bool(b) => !b
    case Str(s) => IsBlank(s)
  }

  /** Ruby's truthiness, `!!v`: only nil and false are false. */
  function Truthy(v: Value): (truthy: bool)
    ensures truthy <==> v != Nil && v != Bool(false)
  {
    match v
    case Nil => false
    case Bool(b) => b
    case Str(_) => true
  }

  /** `new_options[key]`: nil for a missing key. */
  function Lookup(options: map<string, Value>, key: string): Value
  {
    if key in options then options[key] else Nil
  }

  /** `Course.valid_source_backends` */
  const ValidSourceBackends: seq<string> := ["git"]

  /** `Course.default_source_backend` */
  const DefaultSourceBackend: string := "git"

  /** Longest course name the length validation admits. */
  const MaxNameLength: nat := 40

  /** The attribute errors the validations can add. */
  datatype ValidationError =
    | NameBlank | NameTaken | NameTooShort | NameTooLong | NameHasSpace
    | SourceUrlBlank | SourceBackendInvalid

  /**
   * The validations on `name` (lines 11-18): presence, uniqueness among
   * `takenNames` (the names of the other courses), length 1-40 and no
   * space character. A nil name is modelled as "".
   */
  function NameErrors(name: string, takenNames: set<string>): (errors: set<ValidationError>)
    ensures NameHasSpace in errors <==> exists i :: 0 <= i < |name| && name[i] == ' '
    ensures NameTooShort in errors <==> |name| < 1
    ensures NameTooLong in errors <==> |name| > MaxNameLength
    ensures NameBlank in errors <==> IsBlank(name)
    ensures NameTaken in errors <==> name in takenNames
    ensures errors <= {NameBlank, NameTaken, NameTooShort, NameTooLong, NameHasSpace}
  {
    (if IsBlank(name) then {NameBlank} else {})
    + (if name in takenNames then {NameTaken} else {})
    + (if |name| < 1 then {NameTooShort} else {})
    + (if |name| > MaxNameLength then {NameTooLong} else {})
    + (if ' ' in name then {NameHasSpace} else {})
  }

  /**
   * `scope :ongoing`, for one row: a course without `hide_after` is always
   * ongoing; one with `hide_after` T is ongoing at the instants strictly
   * before T.
   */
  function OngoingAt(hideAfter: Option<int>, now: int): (ongoing: bool)
    ensures hideAfter.None? ==> ongoing
    ensures hideAfter.Some? ==> (ongoing <==> now < hideAfter.value)
  {
    hideAfter.None? || hideAfter.value > now
  }

  /** A course leaves the ongoing scope at most once: ongoing later means ongoing earlier. */
  lemma OngoingIsMonotone(hideAfter: Option<int>, earlier: int, later: int)
    requires earlier <= later
    ensures OngoingAt(hideAfter, later) ==> OngoingAt(hideAfter, earlier)
    ensures ExpiredAt(hideAfter, earlier) ==> ExpiredAt(hideAfter, later)
  {
  }

  /** `scope :expired`, for one row: `hide_after IS NOT NULL AND hide_after <= now`. */
  function ExpiredAt(hideAfter: Option<int>, now: int): (expired: bool)
    ensures expired <==> !OngoingAt(hideAfter, now)
  {
    hideAfter.Some? && hideAfter.value <= now
  }

  class Course {
    var id: int
    var name: string
    var sourceUrl: string
    var sourceBackend: Option<string>
    var hidden: bool
    var hideAfter: Option<int>
    var hiddenIfRegisteredAfter: Option<int>
    var spreadsheetKey: Value
    var cacheVersion: int

    /** `Course.new(attributes)`, which runs the `after_initialize` callback. */
    constructor (id: int, name: string, sourceUrl: string, sourceBackend: Option<string>, cacheVersion: int)
      ensures this.id == id && this.name == name && this.sourceUrl == sourceUrl && this.cacheVersion == cacheVersion
      ensures this.sourceBackend == Some(if sourceBackend.Some? then sourceBackend.value else DefaultSourceBackend)
      ensures !hidden && hideAfter.None? && hiddenIfRegisteredAfter.None? && spreadsheetKey == Nil
    {
      this.id := id;
      this.name := name;
      this.sourceUrl := sourceUrl;
      this.sourceBackend := sourceBackend;
      this.cacheVersion := cacheVersion;
      hidden := false;
      hideAfter := None;
      hiddenIfRegisteredAfter := None;
      spreadsheetKey := Nil;
      new;
      SetDefaultSourceBackend();
    }

    /** `self.source_backend ||= Course.default_source_backend` */
    method SetDefaultSourceBackend()
      modifies this`sourceBackend
      ensures sourceBackend.Some?
      ensures old(sourceBackend).Some? ==> sourceBackend == old(sourceBackend)
      ensures old(sourceBackend).None? ==> sourceBackend == Some(DefaultSourceBackend)
    {
      if sourceBackend.None? {
        sourceBackend := Some(DefaultSourceBackend);
      }
    }

    /** `hide_after=`: stores `to_time(x, prefer_end_of_day: true)`. */
    method SetHideAfter(x: Value, toTime: (Value, bool) -> Option<int>)
      modifies this`hideAfter
      ensures hideAfter == toTime(x, true)
    {
      hideAfter := toTime(x, true);
    }

    /** `hidden_if_registered_after=`: stores `to_time(x, prefer_end_of_day: false)`. */
    method SetHiddenIfRegisteredAfter(x: Value, toTime: (Value, bool) -> Option<int>)
      modifies this`hiddenIfRegisteredAfter
      ensures hiddenIfRegisteredAfter == toTime(x, false)
    {
      hiddenIfRegisteredAfter := toTime(x, false);
    }

    /**
     * `options=`: a blank date option is replaced by nil before it goes
     * through the setter, `hidden` becomes the truthiness of its option and
     * `spreadsheet_key` is copied as given. Nothing else changes.
     */
    method SetOptions(options: map<string, Value>, toTime: (Value, bool) -> Option<int>)
      modifies this`hideAfter, this`hiddenIfRegisteredAfter, this`hidden, this`spreadsheetKey
      ensures Blank(Lookup(options, "hide_after")) ==> hideAfter == toTime(Nil, true)
      ensures !Blank(Lookup(options, "hide_after")) ==> hideAfter == toTime(options["hide_after"], true)
      ensures Blank(Lookup(options, "hidden_if_registered_after")) ==> hiddenIfRegisteredAfter == toTime(Nil, false)
      ensures !Blank(Lookup(options, "hidden_if_registered_after"))
              ==> hiddenIfRegisteredAfter == toTime(options["hidden_if_registered_after"], false)
      ensures hidden <==> "hidden" in options && Truthy(options["hidden"])
      ensures spreadsheetKey == Lookup(options, "spreadsheet_key")
    {
      if !Blank(Lookup(options, "hide_after")) {
        SetHideAfter(options["hide_after"], toTime);
      } else {
        SetHideAfter(Nil, toTime);
      }
      if !Blank(Lookup(options, "hidden_if_registered_after")) {
        SetHiddenIfRegisteredAfter(options["hidden_if_registered_after"], toTime);
      } else {
        SetHiddenIfRegisteredAfter(Nil, toTime);
      }
      hidden := Truthy(Lookup(options, "hidden"));
      spreadsheetKey := Lookup(options, "spreadsheet_key");
    }

    /** `check_source_backend`: the backend must be one of the valid ones. */
    function CheckSourceBackend(): (errors: set<ValidationError>)
      reads this
      ensures errors == {} <==> sourceBackend == Some(DefaultSourceBackend)
      ensures errors != {} ==> errors == {SourceBackendInvalid}
    {
      if sourceBackend.Some? && sourceBackend.value in ValidSourceBackends then {} else {SourceBackendInvalid}
    }

    /** All validation errors of the record; it may be saved when there are none. */
    function Errors(takenNames: set<string>): (errors: set<ValidationError>)
      reads this
      ensures SourceUrlBlank in errors <==> IsBlank(sourceUrl)
      ensures SourceBackendInvalid in errors <==> sourceBackend != Some(DefaultSourceBackend)
      ensures forall e :: e in NameErrors(name, takenNames) ==> e in errors
      ensures errors <= NameErrors(name, takenNames) + {SourceUrlBlank, SourceBackendInvalid}
      ensures errors == {} <==>
              NameErrors(name, takenNames) == {} && !IsBlank(sourceUrl) && sourceBackend == Some(DefaultSourceBackend)
      ensures errors == {} ==> 1 <= |name| <= MaxNameLength && ' ' !in name && name !in takenNames
    {
      NameErrors(name, takenNames)
      + (if IsBlank(sourceUrl) then {SourceUrlBlank} else {})
      + CheckSourceBackend()
    }

    /** `cache_path` of this record. */
    function CachePathOf(storeRoot: string): (p: string)
      reads this
      ensures StartsWith(p, CacheRoot(storeRoot) + "/")
      ensures p[|CacheRoot(storeRoot)| + 1..] == name + "-" + IntToString(cacheVersion)
    {
      CachePath(storeRoot, name, cacheVersion)
    }

    /** `clone_path`, `solution_path`, `stub_path`, `stub_zip_path` and `solution_zip_path` of this record. */
    function CacheDirPathOf(storeRoot: string, d: CacheDir): (p: string)
      reads this
      ensures StartsWith(p, CachePathOf(storeRoot) + "/")
      ensures p[|CachePathOf(storeRoot)| + 1..] == DirName(d)
    {
      CacheDirPath(storeRoot, name, cacheVersion, d)
    }

    /** The row condition of `scope :ongoing`. */
    predicate Ongoing(now: int)
      reads this
    {
      OngoingAt(hideAfter, now)
    }

    /** The row condition of `scope :expired`. */
    predicate Expired(now: int)
      reads this
    {
      ExpiredAt(hideAfter, now)
    }

    /**
     * `visible_to?(user)` at instant `now`. An administrator sees every
     * course; anyone else sees it only while it is not hidden and is in the
     * ongoing scope, and, when `hidden_if_registered_after` is set, only as a
     * registered (non-guest) user created strictly before that instant.
     */
    function VisibleTo(user: User, now: int): (visible: bool)
      reads this
      ensures user.administrator ==> visible
      ensures visible && !user.administrator ==> !hidden && Ongoing(now)
      ensures visible && !user.administrator && hiddenIfRegisteredAfter.Some?
              ==> !user.guest && user.createdAt < hiddenIfRegisteredAfter.value
      ensures !hidden && Ongoing(now) && hiddenIfRegisteredAfter.None? ==> visible
      ensures (!hidden && Ongoing(now) && hiddenIfRegisteredAfter.Some? &&
               !user.guest && user.createdAt < hiddenIfRegisteredAfter.value) ==> visible
    {
      user.administrator || (
        !hidden &&
        (hideAfter.None? || hideAfter.value > now) &&
        (hiddenIfRegisteredAfter.None? || (!user.guest && hiddenIfRegisteredAfter.value > user.createdAt))
      )
    }
  }

  /** `Course.ongoing` over a table of courses, in table order. */
  function OngoingScope(courses: seq<Course>, now: int): (ongoing: seq<Course>)
    reads courses
    ensures forall i :: 0 <= i < |ongoing| ==> ongoing[i] in courses && ongoing[i].Ongoing(now)
    ensures forall i :: 0 <= i < |courses| && courses[i].Ongoing(now) ==> courses[i] in ongoing
    ensures multiset(ongoing) <= multiset(courses)
    ensures |ongoing| <= |courses|
    decreases |courses|
  {
    if |courses| == 0 then []
    else
      var c := courses[|courses| - 1];
      var front := courses[..|courses| - 1];
      assert courses == front + [c];
      OngoingScope(front, now) + (if c.Ongoing(now) then [c] else [])
  }

  /** `Course.expired` over a table of courses, in table order. */
  function ExpiredScope(courses: seq<Course>, now: int): (expired: seq<Course>)
    reads courses
    ensures forall i :: 0 <= i < |expired| ==> expired[i] in courses && expired[i].Expired(now)
    ensures forall i :: 0 <= i < |courses| && courses[i].Expired(now) ==> courses[i] in expired
    ensures multiset(expired) <= multiset(courses)
    ensures |expired| <= |courses|
    decreases |courses|
  {
    if |courses| == 0 then []
    else
      var c := courses[|courses| - 1];
      var front := courses[..|courses| - 1];
      assert courses == front + [c];
      ExpiredScope(front, now) + (if c.Expired(now) then [c] else [])
  }

  /**
   * At any fixed instant the two scopes split the table: every course is
   * in exactly one of them, and their sizes add up to the table's.
   */
  lemma {:induction false} ScopesPartition(courses: seq<Course>, now: int)
    ensures forall c :: c in courses ==> (c in OngoingScope(courses, now) <==> c !in ExpiredScope(courses, now))
    ensures |OngoingScope(courses, now)| + |ExpiredScope(courses, now)| == |courses|
    decreases |courses|
  {
    if |courses| > 0 {
      ScopesPartition(courses[..|courses| - 1], now);
    }
  }

  /**
   * The name validation admits `/`, so one course's cache directory can
   * lie inside another's: "b-0/clone/x" at version 1 is cached under the
   * clone directory of course "b" at version 0, which that course's
   * `delete_cache` removes.
   */
  lemma ValidNameNestsCacheDirs(storeRoot: string)
    ensures NameErrors("b-0/clone/x", {}) == {}
    ensures StartsWith(CachePath(storeRoot, "b-0/clone/x", 1), CacheDirPath(storeRoot, "b", 0, Clone) + "/")
  {
    var name := "b-0/clone/x";
    assert !IsBlank(name) by { assert !IsSpace(name[0]); }
    assert ' ' !in name;
    assert IntToString(0) == "0" && IntToString(1) == "1";
    var outer := CacheDirPath(storeRoot, "b", 0, Clone) + "/";
    assert outer == CacheRoot(storeRoot) + "/" + "b-0/clone/";
    assert CachePath(storeRoot, name, 1) == outer + "x-1";
  }

  /**
   * Two records with different names and non-negative cache versions
   * never share a cache directory.
   */
  lemma DistinctCoursesDistinctCaches(storeRoot: string, c1: Course, c2: Course)
    requires c1.name != c2.name && c1.cacheVersion >= 0 && c2.cacheVersion >= 0
    ensures c1.CachePathOf(storeRoot) != c2.CachePathOf(storeRoot)
  {
    if c1.CachePathOf(storeRoot) == c2.CachePathOf(storeRoot) {
      CachePathInjective(storeRoot, c1.name, c1.cacheVersion, c2.name, c2.cacheVersion);
    }
  }

  /** The name rule forbids the space character only: a tab inside a name passes. */
  lemma TabInNameAccepted()
    ensures NameErrors("a\tb", {}) == {}
  {
    assert !IsSpace("a\tb"[0]);
    assert ' ' !in "a\tb";
  }
}
