/**
 * `Course#exercise_group_completion_by_user` (app/models/course.rb:197-235).
 *
 * The two SQL queries of the source become functions over in-memory
 * tables: exercise rows joined with their available points, and
 * awarded-point rows. The loop over the groups stays a loop.
 */
module GroupCompletion {
  import opened Wrappers
  import opened Text
  import opened LikePattern
  import opened ExerciseGroups
  import opened Sums

  /** An exercise joined with the names of its available points. */
  datatype ExerciseRow = ExerciseRow(courseId: int, name: string, availablePoints: seq<string>)

  /** A row of the `awarded_points` table. */
  datatype AwardRow = AwardRow(courseId: int, userId: int, name: string)

  /** The value stored per group: `:available_points` and `:points_by_user`. */
  datatype Completion = Completion(availablePoints: nat, pointsByUser: map<int, nat>)

  /** `self.exercises.map(&:name)` */
  function CourseExerciseNames(courseId: int, exercises: seq<ExerciseRow>): (names: seq<string>)
    ensures forall n :: n in names <==> exists e :: e in exercises && e.courseId == courseId && e.name == n
    decreases |exercises|
  {
    if |exercises| == 0 then []
    else
      (if exercises[0].courseId == courseId then [exercises[0].name] else [])
      + CourseExerciseNames(courseId, exercises[1..])
  }

  function GroupKeys(names: seq<string>): (keys: seq<string>)
    ensures |keys| == |names|
  {
    seq(|names|, i requires 0 <= i < |names| => GroupKey(names[i]))
  }

  /** The de-duplicated groups of line 200: each group once. */
  function DerivedGroups(courseId: int, exercises: seq<ExerciseRow>): (groups: seq<string>)
    ensures forall i, j :: 0 <= i < j < |groups| ==> groups[i] != groups[j]
  {
    Dedup(GroupKeys(CourseExerciseNames(courseId, exercises)))
  }

  /** The groups the loop visits are exactly the groups of this course's exercise names. */
  lemma DerivedGroupsAreOwnGroups(courseId: int, exercises: seq<ExerciseRow>, g: string)
    ensures g in DerivedGroups(courseId, exercises)
        <==> exists e :: e in exercises && e.courseId == courseId && GroupKey(e.name) == g
  {
    var names := CourseExerciseNames(courseId, exercises);
    var keys := GroupKeys(names);
    if g in DerivedGroups(courseId, exercises) {
      var i :| 0 <= i < |keys| && keys[i] == g;
      assert names[i] in names;
    }
    if exists e :: e in exercises && e.courseId == courseId && GroupKey(e.name) == g {
      var e :| e in exercises && e.courseId == courseId && GroupKey(e.name) == g;
      assert e.name in names;
      var i :| 0 <= i < |names| && names[i] == e.name;
      assert keys[i] == g;
    }
  }

  /** `exercises.name LIKE pattern`, with `!` honoured as the escape character. */
  predicate InGroupPattern(group: string, name: string)
  {
    Like(Some(EscapeChar), GroupPattern(group), name)
  }

  /**
   * The first query: one available-point name per matching (exercise, point)
   * row. Every name it returns is a point of an exercise of this course whose
   * name the group's pattern matches.
   */
  function MatchedPoints(courseId: int, exercises: seq<ExerciseRow>, group: string): (points: seq<string>)
    ensures forall p :: p in points ==>
              exists e :: e in exercises && e.courseId == courseId && InGroupPattern(group, e.name) && p in e.availablePoints
    decreases |exercises|
  {
    if |exercises| == 0 then []
    else
      (if exercises[0].courseId == courseId && InGroupPattern(group, exercises[0].name)
       then exercises[0].availablePoints else [])
      + MatchedPoints(courseId, exercises[1..], group)
  }

  /** Reference selection: the points of this course's exercises whose name starts with `prefix`. */
  function PrefixPoints(courseId: int, exercises: seq<ExerciseRow>, prefix: string): seq<string>
    decreases |exercises|
  {
    if |exercises| == 0 then []
    else
      (if exercises[0].courseId == courseId && StartsWith(exercises[0].name, prefix)
       then exercises[0].availablePoints else [])
      + PrefixPoints(courseId, exercises[1..], prefix)
  }

  /** An award row the second query counts. */
  predicate CountedAward(courseId: int, names: seq<string>, r: AwardRow)
  {
    r.courseId == courseId && r.name in names
  }

  /** `COUNT(*)` of the counted award rows of user `u`: at most the rows counted for all users. */
  function CountAwards(courseId: int, awards: seq<AwardRow>, names: seq<string>, u: int): (count: nat)
    ensures count <= TotalAwards(courseId, awards, names)
    decreases |awards|
  {
    if |awards| == 0 then 0
    else
      var last := awards[|awards| - 1];
      CountAwards(courseId, awards[..|awards| - 1], names, u)
      + (if CountedAward(courseId, names, last) && last.userId == u then 1 else 0)
  }

  /** Number of counted award rows over all users. */
  function TotalAwards(courseId: int, awards: seq<AwardRow>, names: seq<string>): (total: nat)
    ensures total <= |awards|
    decreases |awards|
  {
    if |awards| == 0 then 0
    else
      TotalAwards(courseId, awards[..|awards| - 1], names)
      + (if CountedAward(courseId, names, awards[|awards| - 1]) then 1 else 0)
  }

  /** The users `GROUP BY user_id` yields a row for: exactly those with a positive count. */
  function AwardUsers(courseId: int, awards: seq<AwardRow>, names: seq<string>): (users: set<int>)
    ensures forall u :: u in users <==> CountAwards(courseId, awards, names, u) > 0
  {
    var users := set r | r in awards && CountedAward(courseId, names, r) :: r.userId;
    assert forall u :: u in users <==> CountAwards(courseId, awards, names, u) > 0 by {
      forall u
        ensures u in users <==> CountAwards(courseId, awards, names, u) > 0
      {
        CountAwardsPositive(courseId, awards, names, u);
      }
    }
    users
  }

  /**
   * The second query, as the hash `by_user`: every value is at least 1 and
   * at most the number of counted rows, and a user without a key has no
   * counted row.
   */
  function PointsByUser(courseId: int, awards: seq<AwardRow>, names: seq<string>): (byUser: map<int, nat>)
    ensures forall u :: u in byUser ==> 1 <= byUser[u] <= TotalAwards(courseId, awards, names)
    ensures forall u :: u !in byUser ==> CountAwards(courseId, awards, names, u) == 0
  {
    map u | u in AwardUsers(courseId, awards, names) :: CountAwards(courseId, awards, names, u)
  }

  /**
   * The value stored for `group`: the number of (exercise, point) rows of
   * this course's exercises named `group-...`, and the per-user counts,
   * each at least 1.
   */
  function GroupEntry(courseId: int, exercises: seq<ExerciseRow>, awards: seq<AwardRow>, group: string): (entry: Completion)
    ensures entry.availablePoints == |PrefixPoints(courseId, exercises, group + "-")|
    ensures forall u :: u in entry.pointsByUser ==> entry.pointsByUser[u] >= 1
  {
    var points := MatchedPoints(courseId, exercises, group);
    MatchedPointsArePrefixPoints(courseId, exercises, group);
    Completion(|points|, PointsByUser(courseId, awards, points))
  }

  /**
   * The entries the loop produces for the groups in `groups`: a group gets
   * an entry exactly when some exercise of this course named `group-...`
   * has an available point, and its count is then positive.
   */
  function CompletionOver(courseId: int, exercises: seq<ExerciseRow>, awards: seq<AwardRow>, groups: seq<string>)
    : (result: map<string, Completion>)
    ensures forall g :: g in result <==> g in groups && |PrefixPoints(courseId, exercises, g + "-")| > 0
    ensures forall g :: g in result ==> result[g].availablePoints > 0
  {
    var result := map g | g in groups && |MatchedPoints(courseId, exercises, g)| > 0 :: GroupEntry(courseId, exercises, awards, g);
    assert forall g :: g in result <==> g in groups && |PrefixPoints(courseId, exercises, g + "-")| > 0 by {
      forall g
        ensures g in result <==> g in groups && |PrefixPoints(courseId, exercises, g + "-")| > 0
      {
        MatchedPointsArePrefixPoints(courseId, exercises, g);
      }
    }
    result
  }

  /**
   * The hash returned by `exercise_group_completion_by_user`: every key is
   * the group of some exercise of this course, and every count is positive.
   */
  function CompletionSpec(courseId: int, exercises: seq<ExerciseRow>, awards: seq<AwardRow>): (result: map<string, Completion>)
    ensures forall g :: g in result ==> exists e :: e in exercises && e.courseId == courseId && GroupKey(e.name) == g
    ensures forall g :: g in result ==> result[g].availablePoints > 0
  {
    var result := CompletionOver(courseId, exercises, awards, DerivedGroups(courseId, exercises));
    assert forall g :: g in result ==> exists e :: e in exercises && e.courseId == courseId && GroupKey(e.name) == g by {
      forall g | g in result
        ensures exists e :: e in exercises && e.courseId == courseId && GroupKey(e.name) == g
      {
        DerivedGroupsAreOwnGroups(courseId, exercises, g);
      }
    }
    result
  }

  /** One more group adds its entry when its query found points, and otherwise changes nothing. */
  lemma CompletionOverStep(courseId: int, exercises: seq<ExerciseRow>, awards: seq<AwardRow>, groups: seq<string>, g: string)
    ensures var points := MatchedPoints(courseId, exercises, g);
            CompletionOver(courseId, exercises, awards, groups + [g])
            == if |points| > 0
               then CompletionOver(courseId, exercises, awards, groups)[g := Completion(|points|, PointsByUser(courseId, awards, points))]
               else CompletionOver(courseId, exercises, awards, groups)
  {
    var points := MatchedPoints(courseId, exercises, g);
    var before := CompletionOver(courseId, exercises, awards, groups);
    var after := CompletionOver(courseId, exercises, awards, groups + [g]);
    var expected := if |points| > 0 then before[g := GroupEntry(courseId, exercises, awards, g)] else before;
    assert after.Keys == expected.Keys by {
      assert forall h :: h in groups + [g] <==> h in groups || h == g;
    }
    assert forall h :: h in after ==> after[h] == expected[h] by {
      forall h | h in after
        ensures after[h] == expected[h]
      {
        assert after[h] == GroupEntry(courseId, exercises, awards, h);
      }
    }
    assert after == expected;
  }

  /** `exercise_group_completion_by_user`: fills `result` one group at a time, skipping groups without points. */
  method CompletionByUser(courseId: int, exercises: seq<ExerciseRow>, awards: seq<AwardRow>)
    returns (result: map<string, Completion>)
    ensures result == CompletionSpec(courseId, exercises, awards)
  {
    var groups := DerivedGroups(courseId, exercises);
    result := map[];
    var i := 0;
    while i < |groups|
      invariant 0 <= i <= |groups|
      invariant result == CompletionOver(courseId, exercises, awards, groups[..i])
    {
      var group := groups[i];
      var availablePoints := MatchedPoints(courseId, exercises, group);
      assert groups[..i + 1] == groups[..i] + [group];
      CompletionOverStep(courseId, exercises, awards, groups[..i], group);
      if |availablePoints| > 0 {
        var byUser := PointsByUser(courseId, awards, availablePoints);
        result := result[group := Completion(|availablePoints|, byUser)];
      }
      i := i + 1;
    }
    assert groups[..|groups|] == groups;
  }

  // ---------------------------------------------------------------------
  // Which exercises a group's pattern selects
  // ---------------------------------------------------------------------

  /** The LIKE query selects exactly the exercises named `group-...`. */
  lemma {:induction false} MatchedPointsArePrefixPoints(courseId: int, exercises: seq<ExerciseRow>, group: string)
    ensures MatchedPoints(courseId, exercises, group) == PrefixPoints(courseId, exercises, group + "-")
    decreases |exercises|
  {
    if |exercises| > 0 {
      GroupPatternMatchesPrefix(group, exercises[0].name);
      MatchedPointsArePrefixPoints(courseId, exercises[1..], group);
    }
  }

  /** The group "" has the pattern `-%`: it only picks up exercises whose name starts with a dash. */
  lemma EmptyGroupTakesDashNames(courseId: int, exercises: seq<ExerciseRow>)
    ensures MatchedPoints(courseId, exercises, "") == PrefixPoints(courseId, exercises, "-")
  {
    MatchedPointsArePrefixPoints(courseId, exercises, "");
    assert "" + "-" == "-";
  }

  /** A name without a dash is matched by no group's pattern, the group "" included. */
  lemma DashlessNameMatchesNoGroup(group: string, name: string)
    requires '-' !in name
    ensures !InGroupPattern(group, name)
  {
    GroupPatternMatchesPrefix(group, name);
    assert (group + "-")[|group|] == '-';
    if |group| < |name| {
      assert name[|group|] != '-';
    }
  }

  /** A matching exercise of the course contributes every one of its available points. */
  lemma {:induction false} MatchedPointsCover(courseId: int, exercises: seq<ExerciseRow>, group: string, e: ExerciseRow)
    requires e in exercises && e.courseId == courseId && InGroupPattern(group, e.name)
    ensures multiset(e.availablePoints) <= multiset(MatchedPoints(courseId, exercises, group))
    ensures |e.availablePoints| <= |MatchedPoints(courseId, exercises, group)|
    decreases |exercises|
  {
    if exercises[0] != e {
      MatchedPointsCover(courseId, exercises[1..], group, e);
    }
  }

  /** Points selected by a prefix come from some exercise of the course with that prefix and a point. */
  lemma {:induction false} PrefixPointsWitness(courseId: int, exercises: seq<ExerciseRow>, prefix: string)
    requires |PrefixPoints(courseId, exercises, prefix)| > 0
    ensures exists e :: e in exercises && e.courseId == courseId && StartsWith(e.name, prefix) && |e.availablePoints| > 0
    decreases |exercises|
  {
    var e := exercises[0];
    if !(e.courseId == courseId && StartsWith(e.name, prefix) && |e.availablePoints| > 0) {
      PrefixPointsWitness(courseId, exercises[1..], prefix);
    }
  }

  /** Every exercise name of the course yields a group that the loop visits. */
  lemma OwnGroupIsDerived(courseId: int, exercises: seq<ExerciseRow>, e: ExerciseRow)
    requires e in exercises && e.courseId == courseId
    ensures GroupKey(e.name) in DerivedGroups(courseId, exercises)
  {
    var names := CourseExerciseNames(courseId, exercises);
    assert e.name in names;
    var i :| 0 <= i < |names| && names[i] == e.name;
    assert GroupKeys(names)[i] == GroupKey(e.name);
  }

  // ---------------------------------------------------------------------
  // Which groups appear, and with what available-point count
  // ---------------------------------------------------------------------

  /** Some exercise of the course named `prefix...` offers an available point. */
  lemma {:induction false} PrefixPointsNonEmpty(courseId: int, exercises: seq<ExerciseRow>, prefix: string, e: ExerciseRow)
    requires e in exercises && e.courseId == courseId && StartsWith(e.name, prefix) && |e.availablePoints| > 0
    ensures |PrefixPoints(courseId, exercises, prefix)| > 0
    decreases |exercises|
  {
    if exercises[0] != e {
      PrefixPointsNonEmpty(courseId, exercises[1..], prefix, e);
    }
  }

  /**
   * A group appears exactly when it was derived from an exercise name and
   * some exercise of this course named `group-...` has an available point;
   * its count is the number of such (exercise, point) rows, duplicates
   * included.
   */
  lemma ResultGroupsHaveMatchingExercise(courseId: int, exercises: seq<ExerciseRow>, awards: seq<AwardRow>, group: string)
    ensures group in CompletionSpec(courseId, exercises, awards)
        <==> group in DerivedGroups(courseId, exercises) &&
             exists e :: e in exercises && e.courseId == courseId && StartsWith(e.name, group + "-") && |e.availablePoints| > 0
    ensures group in CompletionSpec(courseId, exercises, awards) ==>
            CompletionSpec(courseId, exercises, awards)[group].availablePoints
            == |PrefixPoints(courseId, exercises, group + "-")|
  {
    MatchedPointsArePrefixPoints(courseId, exercises, group);
    if |PrefixPoints(courseId, exercises, group + "-")| > 0 {
      PrefixPointsWitness(courseId, exercises, group + "-");
    }
    if exists e :: e in exercises && e.courseId == courseId && StartsWith(e.name, group + "-") && |e.availablePoints| > 0 {
      var e :| e in exercises && e.courseId == courseId && StartsWith(e.name, group + "-") && |e.availablePoints| > 0;
      PrefixPointsNonEmpty(courseId, exercises, group + "-", e);
    }
  }

  /**
   * Conversely, an exercise of the course with a non-empty group and at
   * least one available point makes its group appear, with a count that
   * covers all of that exercise's points.
   */
  lemma OwnGroupAppears(courseId: int, exercises: seq<ExerciseRow>, awards: seq<AwardRow>, e: ExerciseRow)
    requires e in exercises && e.courseId == courseId
    requires GroupKey(e.name) != "" && |e.availablePoints| > 0
    ensures GroupKey(e.name) in CompletionSpec(courseId, exercises, awards)
    ensures CompletionSpec(courseId, exercises, awards)[GroupKey(e.name)].availablePoints >= |e.availablePoints|
  {
    var g := GroupKey(e.name);
    OwnGroupIsDerived(courseId, exercises, e);
    GroupKeyIsDashPrefix(e.name);
    GroupPatternMatchesPrefix(g, e.name);
    MatchedPointsCover(courseId, exercises, g, e);
  }

  /** Two exercises of one group offering the same point name count it twice. */
  lemma AvailablePointsCountDuplicates()
    ensures var result := CompletionSpec(1, [ExerciseRow(1, "g-1", ["p"]), ExerciseRow(1, "g-2", ["p"])], []);
            "g" in result && result["g"].availablePoints == 2
  {
    var exercises := [ExerciseRow(1, "g-1", ["p"]), ExerciseRow(1, "g-2", ["p"])];
    var points := MatchedPoints(1, exercises, "g");
    assert "g" in DerivedGroups(1, exercises) by {
      OwnGroupIsDerived(1, exercises, exercises[0]);
      GroupKeyAtSplit("g-1", 1);
      assert "g-1"[..1] == "g";
    }
    assert points == ["p", "p"] by {
      MatchedPointsArePrefixPoints(1, exercises, "g");
      assert StartsWith("g-1", "g-") && StartsWith("g-2", "g-");
      assert PrefixPoints(1, exercises[1..], "g-") == ["p"];
    }
  }

  // ---------------------------------------------------------------------
  // Per-user counts
  // ---------------------------------------------------------------------

  /** A user's count is positive exactly when the user has a counted award row. */
  lemma {:induction false} CountAwardsPositive(courseId: int, awards: seq<AwardRow>, names: seq<string>, u: int)
    ensures CountAwards(courseId, awards, names, u) > 0
        <==> exists r :: r in awards && CountedAward(courseId, names, r) && r.userId == u
    decreases |awards|
  {
    if |awards| > 0 {
      var front := awards[..|awards| - 1];
      CountAwardsPositive(courseId, front, names, u);
      assert forall r :: r in awards <==> r in front || r == awards[|awards| - 1];
    }
  }

  /**
   * `points_by_user` has a key for a user exactly when that user has an
   * award row of this course with a matched name, and its value, the
   * number of such rows, is at least 1; an absent user has none.
   */
  lemma PointsByUserKeys(courseId: int, awards: seq<AwardRow>, names: seq<string>)
    ensures forall u :: (u in PointsByUser(courseId, awards, names)
        <==> exists r :: r in awards && CountedAward(courseId, names, r) && r.userId == u)
    ensures forall u :: u in PointsByUser(courseId, awards, names) ==> PointsByUser(courseId, awards, names)[u] >= 1
    ensures forall u :: u !in PointsByUser(courseId, awards, names) ==> CountAwards(courseId, awards, names, u) == 0
  {
    forall u
      ensures CountAwards(courseId, awards, names, u) > 0
          <==> exists r :: r in awards && CountedAward(courseId, names, r) && r.userId == u
    {
      CountAwardsPositive(courseId, awards, names, u);
    }
  }

  /** The users of the counted award rows, each once, in order of first award. */
  function AwardUserList(courseId: int, awards: seq<AwardRow>, names: seq<string>): (users: seq<int>)
    ensures forall u :: u in users <==> u in AwardUsers(courseId, awards, names)
    ensures Distinct(users)
    decreases |awards|
  {
    if |awards| == 0 then []
    else
      var front := awards[..|awards| - 1];
      var last := awards[|awards| - 1];
      var users := AwardUserList(courseId, front, names);
      assert forall r :: r in awards <==> r in front || r == last;
      if CountedAward(courseId, names, last) && last.userId !in users then users + [last.userId] else users
  }

  /** Appending one award row changes `points_by_user` at most at that row's user, by one. */
  lemma PointsByUserStep(courseId: int, awards: seq<AwardRow>, names: seq<string>)
    requires |awards| > 0
    ensures var front, last := awards[..|awards| - 1], awards[|awards| - 1];
            var m, m' := PointsByUser(courseId, awards, names), PointsByUser(courseId, front, names);
            && (forall v :: v in m' ==> v in m)
            && (forall v :: v in m && (v != last.userId || !CountedAward(courseId, names, last)) ==> v in m' && m[v] == m'[v])
            && (CountedAward(courseId, names, last) ==>
                  last.userId in m && m[last.userId] == (if last.userId in m' then m'[last.userId] else 0) + 1)
  {
    var front, last := awards[..|awards| - 1], awards[|awards| - 1];
    PointsByUserKeys(courseId, front, names);
    assert forall r :: r in awards <==> r in front || r == last;
  }

  /**
   * The values of `points_by_user`, summed over its keys (each once),
   * add up to the number of counted award rows.
   */
  lemma {:induction false} PointsByUserTotal(courseId: int, awards: seq<AwardRow>, names: seq<string>)
    ensures forall u :: u in AwardUserList(courseId, awards, names) ==> u in PointsByUser(courseId, awards, names)
    ensures SumSeq(PointsByUser(courseId, awards, names), AwardUserList(courseId, awards, names))
            == TotalAwards(courseId, awards, names)
    decreases |awards|
  {
    var m := PointsByUser(courseId, awards, names);
    var users := AwardUserList(courseId, awards, names);
    if |awards| > 0 {
      var front := awards[..|awards| - 1];
      var last := awards[|awards| - 1];
      var m' := PointsByUser(courseId, front, names);
      var users' := AwardUserList(courseId, front, names);
      PointsByUserTotal(courseId, front, names);
      PointsByUserStep(courseId, awards, names);
      if !CountedAward(courseId, names, last) {
        assert users == users';
        SumSeqAgree(m, m', users');
      } else {
        var u := last.userId;
        if u in users' {
          assert users == users';
          SumSeqBump(m', m, users', u);
        } else {
          assert users == users' + [u];
          SumSeqAgree(m, m', users');
          SumSeqAppend(m, users', u);
        }
      }
    }
  }

  /** Award rows are unique per (course, user, name): the unique index on `awarded_points`. */
  predicate UniqueAwards(awards: seq<AwardRow>)
  {
    forall i, j :: 0 <= i < j < |awards| ==> awards[i] != awards[j]
  }

  /** The distinct matched names user `u` was awarded. */
  function AwardedNames(courseId: int, awards: seq<AwardRow>, names: seq<string>, u: int): set<string>
  {
    set r | r in awards && CountedAward(courseId, names, r) && r.userId == u :: r.name
  }

  /** Appending one (unique) award row adds its name to the user's names exactly when the row counts for the user. */
  lemma AwardedNamesStep(courseId: int, awards: seq<AwardRow>, names: seq<string>, u: int)
    requires UniqueAwards(awards) && |awards| > 0
    ensures var front, last := awards[..|awards| - 1], awards[|awards| - 1];
            |AwardedNames(courseId, awards, names, u)|
            == |AwardedNames(courseId, front, names, u)| + (if CountedAward(courseId, names, last) && last.userId == u then 1 else 0)
  {
    var front := awards[..|awards| - 1];
    var last := awards[|awards| - 1];
    if CountedAward(courseId, names, last) && last.userId == u {
      assert AwardedNames(courseId, awards, names, u) == AwardedNames(courseId, front, names, u) + {last.name} by {
        assert forall r :: r in awards <==> r in front || r == last;
      }
      assert last.name !in AwardedNames(courseId, front, names, u) by {
        forall r | r in front && CountedAward(courseId, names, r) && r.userId == u
          ensures r.name != last.name
        {
          var j :| 0 <= j < |front| && front[j] == r;
          assert awards[j] != awards[|awards| - 1];
        }
      }
    } else {
      assert AwardedNames(courseId, awards, names, u) == AwardedNames(courseId, front, names, u) by {
        assert forall r :: r in awards <==> r in front || r == last;
      }
    }
  }

  lemma {:induction false} CountIsAwardedNames(courseId: int, awards: seq<AwardRow>, names: seq<string>, u: int)
    requires UniqueAwards(awards)
    ensures CountAwards(courseId, awards, names, u) == |AwardedNames(courseId, awards, names, u)|
    decreases |awards|
  {
    if |awards| > 0 {
      var front := awards[..|awards| - 1];
      assert UniqueAwards(front);
      CountIsAwardedNames(courseId, front, names, u);
      AwardedNamesStep(courseId, awards, names, u);
    }
  }

  /**
   * With award rows unique per (course, user, name), no user's count in a
   * group exceeds the number of distinct matched point names, and hence
   * the group's `available_points`.
   */
  lemma PointsByUserBounded(courseId: int, awards: seq<AwardRow>, names: seq<string>, u: int)
    requires UniqueAwards(awards)
    requires u in PointsByUser(courseId, awards, names)
    ensures PointsByUser(courseId, awards, names)[u] <= |set n | n in names| <= |names|
  {
    CountIsAwardedNames(courseId, awards, names, u);
    SubsetOfSeqCardinality(AwardedNames(courseId, awards, names, u), names);
  }

  // ---------------------------------------------------------------------
  // Worked scenario and the missing ESCAPE clause
  // ---------------------------------------------------------------------

  /**
   * Course 7 has exercises "algo-1" (points p1, p2) and "algo-2" (point
   * p3); user 1 holds p1 and p3, user 2 holds p2. The only group is
   * "algo", with three available points, two for user 1 and one for user 2.
   */
  lemma DemoCourseCompletion()
    ensures CompletionSpec(7, DemoExercises(), DemoAwards())
            == map["algo" := Completion(3, map[1 := 2, 2 := 1])]
  {
    DemoGroups();
    DemoPoints();
    DemoPointsByUser();
  }

  function DemoExercises(): seq<ExerciseRow>
  {
    [ExerciseRow(7, "algo-1", ["p1", "p2"]), ExerciseRow(7, "algo-2", ["p3"])]
  }

  function DemoAwards(): seq<AwardRow>
  {
    [AwardRow(7, 1, "p1"), AwardRow(7, 1, "p3"), AwardRow(7, 2, "p2")]
  }

  lemma DemoGroups()
    ensures DerivedGroups(7, DemoExercises()) == ["algo"]
  {
    GroupKeyAtSplit("algo-1", 4);
    GroupKeyAtSplit("algo-2", 4);
    assert "algo-1"[..4] == "algo" && "algo-2"[..4] == "algo";
    assert CourseExerciseNames(7, DemoExercises()) == ["algo-1", "algo-2"];
    assert GroupKeys(["algo-1", "algo-2"]) == ["algo", "algo"];
    assert ["algo", "algo"][..1] == ["algo"];
    assert Dedup(["algo"]) == ["algo"];
  }

  lemma DemoPoints()
    ensures MatchedPoints(7, DemoExercises(), "algo") == ["p1", "p2", "p3"]
  {
    var exercises := DemoExercises();
    MatchedPointsArePrefixPoints(7, exercises, "algo");
    assert StartsWith("algo-1", "algo-") && StartsWith("algo-2", "algo-");
    assert PrefixPoints(7, exercises[1..], "algo-") == ["p3"];
  }

  lemma DemoPointsByUser()
    ensures PointsByUser(7, DemoAwards(), ["p1", "p2", "p3"]) == map[1 := 2, 2 := 1]
  {
    var awards, points := DemoAwards(), ["p1", "p2", "p3"];
    assert CountedAward(7, points, awards[0]) && CountedAward(7, points, awards[1]);
    assert CountedAward(7, points, awards[2]);
    assert AwardUsers(7, awards, points) == {1, 2};
    var one, two := awards[..1], awards[..2];
    assert two[..1] == one && one[..0] == [];
    assert CountAwards(7, one, points, 1) == 1 && CountAwards(7, one, points, 2) == 0;
    assert CountAwards(7, two, points, 1) == 2 && CountAwards(7, two, points, 2) == 0;
    assert CountAwards(7, awards, points, 1) == 2;
    assert CountAwards(7, awards, points, 2) == 1;
  }

  /**
   * As written, the query has no `ESCAPE '!'` clause. Under any escape
   * character other than `!` (none, as in standard SQL, or a backslash),
   * the pattern of the group "a_b" is `a!_b-%` read with a literal `!`,
   * so it does not match "a_b-1", the very exercise the group was derived
   * from: the group is dropped from the result.
   */
  lemma AsWrittenPatternMissesOwnExercise(esc: Option<char>)
    requires esc != Some(EscapeChar)
    ensures GroupKey("a_b-1") == "a_b"
    ensures !Like(esc, GroupPattern("a_b"), "a_b-1")
  {
    GroupKeyAtSplit("a_b-1", 3);
    var p := GroupPattern("a_b");
    assert p == "a!_b-%" by {
      assert EscapeGroup("b") == "b";
      assert EscapeGroup("_b") == "!_b";
      assert EscapeGroup("a_b") == "a!_b";
    }
    if esc == Some('a') {
      assert !Like(esc, p, "a_b-1");
    } else {
      assert p[1..] == "!_b-%" && "a_b-1"[1..] == "_b-1";
      assert !Like(esc, "!_b-%", "_b-1");
    }
  }
}
