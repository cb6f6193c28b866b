/**
 * The LIKE pattern built for an exercise group (app/models/course.rb:208)
 * and the SQL LIKE matcher it is handed to (app/models/course.rb:214).
 *
 * The group is escaped by putting `!` before each of `!`, `%` and `_`,
 * and `-%` is appended. `Like` is parameterised by the escape character
 * the database honours; the aggregation uses `!`, the character the
 * escaping was written for.
 */
module LikePattern {
  import opened Wrappers
  import opened Text

  /** The escape character the group escaping is written for. */
  const EscapeChar: char := '!'

  /** Characters the escaping protects: the escape character and both wildcards. */
  predicate IsMeta(ch: char)
  {
    ch == '!' || ch == '%' || ch == '_'
  }

  function CountMeta(s: string): nat
    decreases |s|
  {
    if |s| == 0 then 0 else (if IsMeta(s[0]) then 1 else 0) + CountMeta(s[1..])
  }

  /** `group.gsub(/[!%_]/) {|x| '!' + x }` */
  function EscapeGroup(g: string): (e: string)
    ensures |e| == |g| + CountMeta(g)
    ensures |g| > 0 ==> e[0] == g[0] || (IsMeta(g[0]) && e[0] == EscapeChar)
    decreases |g|
  {
    if |g| == 0 then []
    else (if IsMeta(g[0]) then [EscapeChar, g[0]] else [g[0]]) + EscapeGroup(g[1..])
  }

  /** Drops each escape character and keeps the character it protects. */
  function Unescape(e: string): string
    decreases |e|
  {
    if |e| == 0 then []
    else if e[0] == EscapeChar && |e| >= 2 then [e[1]] + Unescape(e[2..])
    else [e[0]] + Unescape(e[1..])
  }

  /** Removing the escapes recovers the group. */
  lemma {:induction false} UnescapeEscapeGroup(g: string)
    ensures Unescape(EscapeGroup(g)) == g
  {
    if |g| > 0 {
      var e := EscapeGroup(g);
      UnescapeEscapeGroup(g[1..]);
      if IsMeta(g[0]) {
        assert e[2..] == EscapeGroup(g[1..]);
      } else {
        assert e[1..] == EscapeGroup(g[1..]);
      }
      assert g == [g[0]] + g[1..];
    }
  }

  /** `pattern = escaped group + '-%'` */
  function GroupPattern(g: string): (p: string)
    ensures |p| == |g| + CountMeta(g) + 2
    ensures p[|p| - 2..] == "-%"
  {
    EscapeGroup(g) + "-%"
  }

  /** A pattern with no wildcard and no escape character. */
  predicate PlainPattern(esc: Option<char>, p: string)
  {
    forall i :: 0 <= i < |p| ==> p[i] != '%' && p[i] != '_' && esc != Some(p[i])
  }

  /**
   * SQL `LIKE` of `s` against pattern `p`: `%` matches any run of
   * characters, `_` exactly one character, and `esc` (when the database
   * has one) makes the next character literal. A pattern that ends in the
   * escape character matches nothing.
   */
  function Like(esc: Option<char>, p: string, s: string): (matches: bool)
    ensures PlainPattern(esc, p) ==> (matches <==> s == p)
    decreases |p| + |s|
  {
    if |p| == 0 then |s| == 0
    else if esc == Some(p[0]) then |p| >= 2 && |s| >= 1 && s[0] == p[1] && Like(esc, p[2..], s[1..])
    else if p[0] == '%' then Like(esc, p[1..], s) || (|s| >= 1 && Like(esc, p, s[1..]))
    else if p[0] == '_' then |s| >= 1 && Like(esc, p[1..], s[1..])
    else |s| >= 1 && s[0] == p[0] && Like(esc, p[1..], s[1..])
  }

  /** A trailing `%` matches every remainder. */
  lemma {:induction false} PercentMatchesAll(s: string)
    ensures Like(Some(EscapeChar), "%", s)
    decreases |s|
  {
    if |s| > 0 {
      PercentMatchesAll(s[1..]);
    }
  }

  /** The escaped group matches exactly its own characters, literally. */
  lemma {:induction false} EscapedPrefixMatches(g: string, rest: string, s: string)
    ensures Like(Some(EscapeChar), EscapeGroup(g) + rest, s)
        <==> StartsWith(s, g) && Like(Some(EscapeChar), rest, s[|g|..])
    decreases |g|
  {
    var esc := Some(EscapeChar);
    if |g| > 0 {
      var p := EscapeGroup(g) + rest;
      var k := if IsMeta(g[0]) then 2 else 1;
      assert p[k..] == EscapeGroup(g[1..]) + rest;
      assert k == 2 ==> p[0] == EscapeChar && p[1] == g[0];
      assert k == 1 ==> p[0] == g[0] && !IsMeta(p[0]);
      if |s| == 0 {
        assert !Like(esc, p, s);
      } else {
        EscapedPrefixMatches(g[1..], rest, s[1..]);
        assert Like(esc, p, s) <==> s[0] == g[0] && Like(esc, p[k..], s[1..]);
        assert StartsWith(s, g) <==> s[0] == g[0] && StartsWith(s[1..], g[1..]);
        if StartsWith(s[1..], g[1..]) {
          assert s[1..][|g| - 1..] == s[|g|..];
        }
      }
    } else {
      assert EscapeGroup(g) + rest == rest && s[|g|..] == s;
    }
  }

  /**
   * Under LIKE with `!` as escape character, the pattern of group `g`
   * matches exactly the names that start with `g` followed by a dash.
   */
  lemma GroupPatternMatchesPrefix(g: string, name: string)
    ensures Like(Some(EscapeChar), GroupPattern(g), name) <==> StartsWith(name, g + "-")
  {
    var esc := Some(EscapeChar);
    EscapedPrefixMatches(g, "-%", name);
    if StartsWith(name, g) {
      var t := name[|g|..];
      if |t| > 0 {
        PercentMatchesAll(t[1..]);
        assert "-%"[1..] == "%";
      }
      assert StartsWith(name, g + "-") <==> |t| > 0 && t[0] == '-';
    } else {
      assert !StartsWith(name, g + "-");
    }
  }
}
