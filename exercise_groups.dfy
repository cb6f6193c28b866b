/**
 * Exercise groups (app/models/course.rb:200): an exercise named
 * `<group>-<leaf>` belongs to `<group>`; every other name belongs to the
 * group "".
 */
module ExerciseGroups {
  import opened Text

  /**
   * Reference reading of `/^(.+)-[^-]+$/` on a name without line breaks:
   * the dash at `i` has at least one character before it, at least one
   * after it, and no dash after it.
   */
  predicate SplitsAt(name: string, i: int)
  {
    1 <= i && i + 1 < |name| && name[i] == '-' &&
    forall j :: i < j < |name| ==> name[j] != '-'
  }

  /** `if name =~ /^(.+)-[^-]+$/ then $1 else "" end` */
  function GroupKey(name: string): (g: string)
    ensures g != "" ==> SplitsAt(name, |g|) && g == name[..|g|]
    ensures g == "" <==> forall i :: 0 <= i < |name| ==> !SplitsAt(name, i)
  {
    var d := LastIndexOf(name, '-');
    if 1 <= d && d + 1 < |name| then
      assert SplitsAt(name, d) && |name[..d]| == d;
      name[..d]
    else
      assert forall i :: 0 <= i < |name| && SplitsAt(name, i) ==> i == d;
      ""
  }

  /** The regular expression can split a name in one place only. */
  lemma SplitIsUnique(name: string, i: int, k: int)
    requires SplitsAt(name, i) && SplitsAt(name, k)
    ensures i == k
  {
  }

  /** When the expression splits a name, the key is everything before that (last) dash. */
  lemma GroupKeyAtSplit(name: string, i: int)
    requires SplitsAt(name, i)
    ensures GroupKey(name) == name[..i]
  {
    SplitIsUnique(name, i, |GroupKey(name)|);
  }

  /** A group key followed by a dash is always a prefix of the name it came from. */
  lemma GroupKeyIsDashPrefix(name: string)
    requires GroupKey(name) != ""
    ensures StartsWith(name, GroupKey(name) + "-")
  {
    var g := GroupKey(name);
    assert name[..|g| + 1] == g + "-";
  }

  /** A name without a dash always falls into the group "". */
  lemma DashlessNameHasEmptyGroup(name: string)
    requires '-' !in name
    ensures GroupKey(name) == ""
  {
  }

  /** The worked examples of the naming convention. */
  lemma GroupKeyExamples()
    ensures GroupKey("algo-week1") == "algo"
    ensures GroupKey("a--b") == "a-"
    ensures GroupKey("standalone") == ""
    ensures GroupKey("a-") == ""
    ensures GroupKey("-x") == ""
  {
    GroupKeyAtSplit("algo-week1", 4);
    GroupKeyAtSplit("a--b", 2);
    DashlessNameHasEmptyGroup("standalone");
  }

  /** Ruby's `Array#uniq` on the group keys: the first occurrence of each key, in order. */
  function Dedup(s: seq<string>): (r: seq<string>)
    ensures forall x :: x in r <==> x in s
    ensures forall i, j :: 0 <= i < j < |r| ==> r[i] != r[j]
    decreases |s|
  {
    if |s| == 0 then []
    else
      var r := Dedup(s[..|s| - 1]);
      assert forall x :: x in s <==> x in s[..|s| - 1] || x == s[|s| - 1];
      if s[|s| - 1] in r then r else r + [s[|s| - 1]]
  }
}
