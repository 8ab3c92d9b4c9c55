// The path algebra of sbus object paths. A path ending in "/*" is a
// subtree path: it stands for its base path and every path below it.
// Paths are taken to be C strings without an embedded NUL, so strlen is |p|.
module ObjectPath {
  import opened SbusTypes

  // sbus_opath_is_subtree: at least two characters, the last two "/*".
  predicate IsSubtree(p: string)
  {
    |p| >= 2 && p[|p| - 2] == '/' && p[|p| - 1] == '*'
  }

  // sbus_opath_get_base_path: a subtree path loses its "/*", except that
  // the root subtree "/*" keeps its slash.
  function BasePath(p: string): string
  {
    if !IsSubtree(p) then p
    else if |p| == 2 then "/"
    else p[..|p| - 2]
  }

  // strrchr(s, '/'): the index of the last slash, if any.
  function LastSlash(s: string): (r: Option<nat>)
    ensures r.Some? ==> r.value < |s| && s[r.value] == '/'
    ensures r.Some? ==> forall j :: r.value < j < |s| ==> s[j] != '/'
    ensures r.None? ==> forall j :: 0 <= j < |s| ==> s[j] != '/'
  {
    if |s| == 0 then None
    else if s[|s| - 1] == '/' then Some(|s| - 1)
    else LastSlash(s[..|s| - 1])
  }

  // sbus_opath_parent_subtree: the subtree path one level up, or None at
  // the root, for a base without a slash and for a base ending in a slash.
  // The base path always shrinks, which bounds every walk up the hierarchy.
  function ParentSubtree(p: string): (r: Option<string>)
    ensures r.Some? ==> IsSubtree(r.value)
    ensures r.Some? ==> |BasePath(r.value)| < |BasePath(p)|
  {
    var b := BasePath(p);
    if |b| <= 1 then None
    else match LastSlash(b)
      case None => None
      case Some(k) =>
        if k + 1 == |b| then None
        else
          var q := b[..k + 1] + "*";
          assert q[|q| - 2] == '/' && q[|q| - 1] == '*';
          assert k > 0 ==> BasePath(q) == b[..k];
          Some(q)
  }

  // The paths a lookup visits: `p`, then each parent subtree in turn.
  function Levels(p: string): (ls: seq<string>)
    ensures |ls| >= 1 && ls[0] == p
    decreases |BasePath(p)|
  {
    match ParentSubtree(p)
    case None => [p]
    case Some(q) => [p] + Levels(q)
  }

  // Number of slashes in a string.
  function Slashes(s: string): nat
  {
    if |s| == 0 then 0
    else Slashes(s[..|s| - 1]) + (if s[|s| - 1] == '/' then 1 else 0)
  }

  // ---------------------------------------------------------------------
  // Properties of the base path

  // The base path of a subtree path, and back: "/org/a/*" has base "/org/a", "/*" has base "/".
  lemma BasePathRoundTrip(b: string)
    ensures IsSubtree(b + "/*")
    ensures BasePath(b + "/*") == if b == "" then "/" else b
    ensures b != "" ==> BasePath(b + "/*") + "/*" == b + "/*"
  {
    assert (b + "/*")[..|b|] == b;
  }

  // A path that is not a subtree path is its own base; a subtree path is longer than its base.
  lemma BasePathShape(p: string)
    ensures !IsSubtree(p) ==> BasePath(p) == p
    ensures IsSubtree(p) && |p| > 2 ==> p == BasePath(p) + "/*"
    ensures IsSubtree(p) ==> |BasePath(p)| < |p|
  {
    if IsSubtree(p) && |p| > 2 {
      assert p == p[..|p| - 2] + "/*";
    }
  }

  // ---------------------------------------------------------------------
  // Properties of the parent subtree

  // When the base path is `d + "/" + s` with `s` a non-empty last segment,
  // the parent subtree replaces `s` with "*".
  lemma ParentOfChild(p: string, d: string, s: string)
    requires BasePath(p) == d + "/" + s
    requires s != "" && forall j :: 0 <= j < |s| ==> s[j] != '/'
    ensures ParentSubtree(p) == Some(d + "/*")
  {
    var b := BasePath(p);
    assert b[|d|] == '/';
    assert forall j :: |d| < j < |b| ==> b[j] == s[j - |d| - 1];
    var k := LastSlash(b);
    assert k == Some(|d|);
    assert b[..|d| + 1] == d + "/";
    assert ParentSubtree(p) == Some(b[..|d| + 1] + "*");
    assert (d + "/") + "*" == d + "/*";
  }

  // ParentSubtree gives up exactly at a one-character base, a base without a slash, or a base ending in a slash.
  lemma ParentNone(p: string)
    ensures var b := BasePath(p);
      ParentSubtree(p).None? <==>
        (|b| <= 1 || (forall j :: 0 <= j < |b| ==> b[j] != '/') || b[|b| - 1] == '/')
  {
    var b := BasePath(p);
    if |b| > 1 && LastSlash(b).Some? && LastSlash(b).value + 1 != |b| {
      assert b[LastSlash(b).value] == '/';
      assert b[|b| - 1] != '/';
    }
  }

  // The walk from "/org/a/b" to the root.
  lemma ParentSubtreeWalk()
    ensures ParentSubtree("/org/a/b") == Some("/org/a/*")
    ensures ParentSubtree("/org/a/*") == Some("/org/*")
    ensures ParentSubtree("/org/*") == Some("/*")
    ensures ParentSubtree("/*") == None
  {
    ParentOfChild("/org/a/b", "/org/a", "b");
    assert "/org/a" + "/*" == "/org/a/*";
    assert BasePath("/org/a/*") == "/org" + "/" + "a";
    ParentOfChild("/org/a/*", "/org", "a");
    assert "/org" + "/*" == "/org/*";
    assert BasePath("/org/*") == "" + "/" + "org";
    ParentOfChild("/org/*", "", "org");
    assert "" + "/*" == "/*";
  }

  // An exact path one level below the root, and two paths the walk cannot climb from.
  lemma ParentSubtreeEdges()
    ensures ParentSubtree("/org") == Some("/*")
    ensures ParentSubtree("org") == None
    ensures ParentSubtree("/org/") == None
  {
    ParentOfChild("/org", "", "org");
    assert "" + "/*" == "/*";
    ParentNone("org");
    ParentNone("/org/");
  }

  lemma {:induction false} SlashesSplit(s: string, k: nat)
    requires k < |s| && s[k] == '/'
    requires forall j :: k < j < |s| ==> s[j] != '/'
    ensures Slashes(s) == Slashes(s[..k]) + 1
    decreases |s|
  {
    if k + 1 < |s| {
      var t := s[..|s| - 1];
      assert t[..k] == s[..k];
      SlashesSplit(t, k);
    } else {
      assert s[..|s| - 1] == s[..k];
    }
  }

  // Each step up removes one slash from the base path, except the last
  // step to the root subtree "/*", after which the walk stops.
  lemma ParentDropsSlash(p: string)
    requires ParentSubtree(p).Some?
    ensures var q := ParentSubtree(p).value;
      Slashes(BasePath(q)) <= Slashes(BasePath(p)) &&
      (q == "/*" || Slashes(BasePath(q)) < Slashes(BasePath(p)))
    ensures ParentSubtree(p).value == "/*" ==> Slashes(BasePath(p)) >= 1
  {
    var b := BasePath(p);
    var k := LastSlash(b).value;
    var q := ParentSubtree(p).value;
    assert q == b[..k + 1] + "*";
    SlashesSplit(b, k);
    if k == 0 {
      assert b[..1] == "/";
      assert q == "/*";
      assert BasePath(q) == "/";
      assert Slashes("/") == Slashes("") + 1;
      assert Slashes(b[..0]) == 0;
    } else {
      assert BasePath(q) == b[..k];
    }
  }

  // A walk up visits at most one parent subtree per slash of the base path.
  lemma {:induction false} LevelsBound(p: string)
    ensures |Levels(p)| <= Slashes(BasePath(p)) + 1
    decreases |BasePath(p)|
  {
    match ParentSubtree(p)
    case None =>
    case Some(q) =>
      ParentDropsSlash(p);
      if q == "/*" {
        assert BasePath(q) == "/";
        ParentNone(q);
        assert Levels(q) == [q];
      } else {
        LevelsBound(q);
      }
  }

  // The rest of a walk from any level on it is the walk from that level.
  lemma {:induction false} LevelsSuffix(p: string, k: nat)
    requires k < |Levels(p)|
    ensures Levels(p)[k..] == Levels(Levels(p)[k])
    decreases k
  {
    if k > 0 {
      var q := ParentSubtree(p).value;
      assert Levels(p)[1..] == Levels(q);
      LevelsSuffix(q, k - 1);
      assert Levels(p)[k..] == Levels(q)[k - 1..];
    }
  }

  // Base paths strictly shrink along a walk, so no path is visited twice.
  lemma {:induction false} LevelsShrink(p: string)
    ensures forall i :: 0 < i < |Levels(p)| ==> |BasePath(Levels(p)[i])| < |BasePath(p)|
    decreases |BasePath(p)|
  {
    match ParentSubtree(p)
    case None =>
    case Some(q) =>
      LevelsShrink(q);
      forall i | 0 < i < |Levels(p)|
        ensures |BasePath(Levels(p)[i])| < |BasePath(p)|
      {
        assert Levels(p)[i] == Levels(q)[i - 1];
      }
  }

  // A subtree path "P/*" is on the walk of every path "P/rest" whose rest
  // is a chain of non-empty segments.
  predicate Segments(rest: string)
  {
    && |rest| > 0
    && rest[0] != '/'
    && rest[|rest| - 1] != '/'
    && forall j :: 0 <= j < |rest| - 1 ==> !(rest[j] == '/' && rest[j + 1] == '/')
  }

  function RestRank(rest: string): nat
  {
    |rest| + (if |rest| >= 2 && rest[|rest| - 2..] == "/*" then 0 else 1)
  }

  // One step up from "P/rest": either "P/*" itself, or "P/rest2" with a smaller rest.
  lemma ParentOfDescendant(prefix: string, rest: string)
    requires Segments(rest)
    requires prefix + "/" + rest != prefix + "/*"
    ensures ParentSubtree(prefix + "/" + rest).Some?
    ensures var q := ParentSubtree(prefix + "/" + rest).value;
      q == prefix + "/*" ||
      exists rest2 :: Segments(rest2) && RestRank(rest2) < RestRank(rest) && q == prefix + "/" + rest2
  {
    var w := prefix + "/" + rest;
    var n := |prefix|;
    if IsSubtree(w) {
      // rest ends in "/*" and is longer than "*"
      assert |rest| == 1 ==> w == prefix + "/*";
      assert |rest| >= 2 && rest[|rest| - 2] == '/' && rest[|rest| - 1] == '*';
      var r1 := rest[..|rest| - 2];
      assert rest == r1 + "/*";
      assert w == (prefix + "/" + r1) + "/*";
      assert |r1| > 0;
      assert r1[|r1| - 1] != '/' by {
        assert rest[|rest| - 3] == r1[|r1| - 1];
      }
      BasePathShape(w);
      assert BasePath(w) == prefix + "/" + r1;
      StepFromExact(prefix, r1, w);
      assert RestRank(rest) == |r1| + 2 by {
        assert rest[|rest| - 2..] == "/*";
      }
    } else {
      BasePathShape(w);
      StepFromExact(prefix, rest, w);
      assert RestRank(rest) == |rest| + 1;
    }
    var q := ParentSubtree(w).value;
    if q != prefix + "/*" {
      var rest2 :| Segments(rest2) && RestRank(rest2) < RestRank(rest) && q == prefix + "/" + rest2;
      assert Segments(rest2) && RestRank(rest2) < RestRank(rest) && q == prefix + "/" + rest2;
    }
  }

  // One step up from a path whose base is "P/r" with r a chain of segments.
  lemma StepFromExact(prefix: string, r: string, w: string)
    requires |r| > 0 && r[0] != '/' && r[|r| - 1] != '/'
    requires forall j :: 0 <= j < |r| - 1 ==> !(r[j] == '/' && r[j + 1] == '/')
    requires BasePath(w) == prefix + "/" + r
    ensures ParentSubtree(w).Some?
    ensures var q := ParentSubtree(w).value;
      q == prefix + "/*" ||
      exists rest2 :: Segments(rest2) && RestRank(rest2) <= |r| && q == prefix + "/" + rest2
  {
    match LastSlash(r)
    case None =>
      ParentOfChild(w, prefix, r);
    case Some(j) =>
      assert j > 0 && j + 1 < |r|;
      var d := prefix + "/" + r[..j];
      var s := r[j + 1..];
      assert prefix + "/" + r == d + "/" + s by {
        assert r == r[..j] + "/" + s;
      }
      ParentOfChild(w, d, s);
      var rest2 := r[..j] + "/*";
      assert d + "/*" == prefix + "/" + rest2;
      TrimLastSegment(r, j);
  }

  // Replacing the last segment of a chain of segments by "*" leaves a chain
  // of segments of smaller rank.
  lemma TrimLastSegment(r: string, j: nat)
    requires Segments(r)
    requires 0 < j < |r| - 1 && r[j] == '/'
    ensures Segments(r[..j] + "/*") && RestRank(r[..j] + "/*") <= |r|
  {
    var rest2 := r[..j] + "/*";
    assert r[j - 1] != '/';
    assert rest2[|rest2| - 2..] == "/*";
    forall i | 0 <= i < |rest2| - 1
      ensures !(rest2[i] == '/' && rest2[i + 1] == '/')
    {
      if i + 1 < j {
        assert rest2[i] == r[i] && rest2[i + 1] == r[i + 1];
      } else if i + 1 == j {
        assert rest2[i] == r[j - 1];
      }
    }
  }

  lemma {:induction false} SubtreeOnWalk(prefix: string, rest: string)
    requires Segments(rest)
    ensures prefix + "/*" in Levels(prefix + "/" + rest)
    decreases RestRank(rest)
  {
    var w := prefix + "/" + rest;
    if w == prefix + "/*" {
      assert Levels(w)[0] == w;
    } else {
      ParentOfDescendant(prefix, rest);
      var q := ParentSubtree(w).value;
      assert Levels(w) == [w] + Levels(q);
      if q == prefix + "/*" {
        assert Levels(q)[0] == q;
      } else {
        var rest2 :| Segments(rest2) && RestRank(rest2) < RestRank(rest) && q == prefix + "/" + rest2;
        SubtreeOnWalk(prefix, rest2);
      }
    }
  }
}
