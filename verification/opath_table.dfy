// The object-path table: a map from an object path to the ordered list of
// interfaces registered on exactly that path, and the pure definitions of
// what adding to it and looking it up mean.
module PathTable {
  import opened SbusTypes
  import opened ObjectPath

  type Table = map<string, seq<Interface>>

  // sbus_iface_list_lookup: the first interface of the list with that name.
  function ListLookup(list: seq<Interface>, name: string): (r: Option<Interface>)
    ensures r.Some? ==> Name(r.value) == name && r.value in list
    ensures r.Some? ==> exists j :: (0 <= j < |list| && list[j] == r.value
      && forall i :: 0 <= i < j ==> Name(list[i]) != name)
    ensures r.None? <==> forall j :: 0 <= j < |list| ==> Name(list[j]) != name
  {
    if |list| == 0 then None
    else if Name(list[0]) == name then Some(list[0])
    else
      var r := ListLookup(list[1..], name);
      assert forall j :: 1 <= j < |list| ==> list[j] == list[1..][j - 1];
      assert r.Some? ==> exists j :: (0 <= j < |list| && list[j] == r.value
        && forall i :: 0 <= i < j ==> Name(list[i]) != name) by {
        if r.Some? {
          var j :| 0 <= j < |list[1..]| && list[1..][j] == r.value
            && forall i :: 0 <= i < j ==> Name(list[1..][i]) != name;
          assert list[j + 1] == r.value;
          assert forall i :: 0 <= i < j + 1 ==> Name(list[i]) != name by {
            forall i | 0 <= i < j + 1 ensures Name(list[i]) != name {
              if i > 0 { assert list[i] == list[1..][i - 1]; }
            }
          }
        }
      }
      r
  }

  // No two interfaces of the list share a name.
  predicate UniqueNames(list: seq<Interface>)
  {
    forall i, j :: 0 <= i < j < |list| ==> Name(list[i]) != Name(list[j])
  }

  // The uniqueness invariant of the table: one interface per name and path key.
  predicate TableUnique(t: Table)
  {
    forall k :: k in t ==> UniqueNames(t[k])
  }

  // ---------------------------------------------------------------------
  // Adding an interface (sbus_opath_hash_add_iface)

  datatype AddOutcome =
    | Duplicate            // EEXIST: the key already holds an interface of that name
    | Appended(t: Table)   // EOK, path_known = true
    | Created(t: Table)    // EOK, path_known = false

  function AddIface(t: Table, path: string, iface: Interface): (r: AddOutcome)
    ensures r.Duplicate? <==> path in t && ListLookup(t[path], Name(iface)).Some?
    ensures r.Appended? <==> path in t && ListLookup(t[path], Name(iface)).None?
    ensures r.Created? <==> path !in t
    ensures !r.Duplicate? ==> r.t.Keys == t.Keys + {path}
    ensures !r.Duplicate? ==> forall k :: k in t && k != path ==> r.t[k] == t[k]
    ensures r.Appended? ==> |r.t[path]| == |t[path]| + 1 && r.t[path][..|t[path]|] == t[path]
    ensures !r.Duplicate? ==> |r.t[path]| >= 1 && r.t[path][|r.t[path]| - 1] == iface
    ensures r.Created? ==> |r.t[path]| == 1
  {
    if path in t then
      if ListLookup(t[path], Name(iface)).Some? then Duplicate
      else
        var list := t[path] + [iface];
        assert list[..|t[path]|] == t[path];
        Appended(t[path := list])
    else Created(t[path := [iface]])
  }

  // A successful add keeps every key's interface names unique.
  lemma AddKeepsUnique(t: Table, path: string, iface: Interface)
    requires TableUnique(t)
    ensures !AddIface(t, path, iface).Duplicate? ==> TableUnique(AddIface(t, path, iface).t)
  {
    var r := AddIface(t, path, iface);
    if r.Appended? {
      var list := r.t[path];
      forall i, j | 0 <= i < j < |list| ensures Name(list[i]) != Name(list[j]) {
        if j == |list| - 1 {
          assert list[i] == t[path][i];
        } else {
          assert list[i] == t[path][i] && list[j] == t[path][j];
        }
      }
    }
  }

  // The table after a sequence of registrations; a duplicate leaves it as it was.
  function AddAll(t: Table, adds: seq<(string, Interface)>): Table
    decreases |adds|
  {
    if |adds| == 0 then t
    else
      var r := AddIface(t, adds[0].0, adds[0].1);
      AddAll(if r.Duplicate? then t else r.t, adds[1..])
  }

  // After any sequence of adds, no key lists two interfaces of the same name.
  lemma {:induction false} AddAllUnique(t: Table, adds: seq<(string, Interface)>)
    requires TableUnique(t)
    ensures TableUnique(AddAll(t, adds))
    decreases |adds|
  {
    if |adds| > 0 {
      var r := AddIface(t, adds[0].0, adds[0].1);
      AddKeepsUnique(t, adds[0].0, adds[0].1);
      AddAllUnique(if r.Duplicate? then t else r.t, adds[1..]);
    }
  }

  // ---------------------------------------------------------------------
  // Looking up one interface (sbus_opath_hash_lookup_iface)

  // Whether the table holds `name` at exactly `level`.
  predicate Hit(t: Table, level: string, name: string)
  {
    level in t && ListLookup(t[level], name).Some?
  }

  // The interface named `name` at the first level of the walk that has one.
  function FindIn(t: Table, levels: seq<string>, name: string): Option<Interface>
  {
    if |levels| == 0 then None
    else if Hit(t, levels[0], name) then ListLookup(t[levels[0]], name)
    else FindIn(t, levels[1..], name)
  }

  // What a lookup of `name` on `path` answers.
  function LookupIface(t: Table, path: string, name: string): Option<Interface>
  {
    FindIn(t, Levels(path), name)
  }

  // The most specific level that holds the name answers; no level, no answer.
  lemma {:induction false} FindInFirstMatch(t: Table, levels: seq<string>, name: string)
    ensures FindIn(t, levels, name).None? <==> forall j :: 0 <= j < |levels| ==> !Hit(t, levels[j], name)
    ensures FindIn(t, levels, name).Some? ==>
      exists j :: 0 <= j < |levels| && Hit(t, levels[j], name)
        && FindIn(t, levels, name) == ListLookup(t[levels[j]], name)
        && forall i :: 0 <= i < j ==> !Hit(t, levels[i], name)
    decreases |levels|
  {
    if |levels| > 0 && !Hit(t, levels[0], name) {
      var rest := levels[1..];
      FindInFirstMatch(t, rest, name);
      assert forall j :: 1 <= j < |levels| ==> levels[j] == rest[j - 1];
      if FindIn(t, rest, name).Some? {
        var j :| 0 <= j < |rest| && Hit(t, rest[j], name)
          && FindIn(t, rest, name) == ListLookup(t[rest[j]], name)
          && forall i :: 0 <= i < j ==> !Hit(t, rest[i], name);
        assert levels[j + 1] == rest[j];
        forall i | 0 <= i < j + 1 ensures !Hit(t, levels[i], name) {
          if i > 0 { assert levels[i] == rest[i - 1]; }
        }
      }
    } else if |levels| > 0 {
      assert Hit(t, levels[0], name);
    }
  }

  // A subtree key "P/*" that lists the name answers for every path "P/rest"
  // below it, as long as no level the walk visits before "P/*" lists the
  // name: "/org/a/*" answers "/org/a/1" whatever "/org/*" and "/*" hold.
  lemma SubtreeAnswersDescendant(t: Table, prefix: string, rest: string, name: string)
    requires Segments(rest)
    requires Hit(t, prefix + "/*", name)
    requires forall i :: 0 <= i < |Levels(prefix + "/" + rest)| && Hit(t, Levels(prefix + "/" + rest)[i], name) ==>
      exists k :: 0 <= k <= i && Levels(prefix + "/" + rest)[k] == prefix + "/*"
    ensures LookupIface(t, prefix + "/" + rest, name) == ListLookup(t[prefix + "/*"], name)
  {
    var levels := Levels(prefix + "/" + rest);
    SubtreeOnWalk(prefix, rest);
    FindInFirstMatch(t, levels, name);
    var j :| 0 <= j < |levels| && Hit(t, levels[j], name)
      && FindIn(t, levels, name) == ListLookup(t[levels[j]], name)
      && forall i :: 0 <= i < j ==> !Hit(t, levels[i], name);
    var k :| 0 <= k <= j && levels[k] == prefix + "/*";
    assert Hit(t, levels[k], name);
    assert k == j;
  }

  // Keys above a subtree never hide it: when every key on the walk from
  // "P/rest" other than "P/*" is an ancestor of "P/*" (on the walk from
  // "P/*"), and "P/*" lists the name, "P/*" answers.
  lemma AncestorsDoNotHide(t: Table, prefix: string, rest: string, name: string)
    requires Segments(rest)
    requires Hit(t, prefix + "/*", name)
    requires forall k :: k in t && k in Levels(prefix + "/" + rest) ==> k in Levels(prefix + "/*")
    ensures LookupIface(t, prefix + "/" + rest, name) == ListLookup(t[prefix + "/*"], name)
  {
    var w := prefix + "/" + rest;
    var s := prefix + "/*";
    var ls := Levels(w);
    SubtreeOnWalk(prefix, rest);
    var k0 :| 0 <= k0 < |ls| && ls[k0] == s;
    LevelsShrink(s);
    forall i | 0 <= i < k0
      ensures !Hit(t, ls[i], name)
    {
      LevelsSuffix(w, i);
      LevelsShrink(ls[i]);
      assert Levels(ls[i])[k0 - i] == s;
      assert |BasePath(s)| < |BasePath(ls[i])|;
      assert ls[i] !in Levels(s);
    }
    forall i | 0 <= i < |ls| && Hit(t, ls[i], name)
      ensures exists k :: 0 <= k <= i && ls[k] == s
    {
      assert k0 <= i;
    }
    SubtreeAnswersDescendant(t, prefix, rest, name);
  }

  // ---------------------------------------------------------------------
  // Listing the supported interfaces (sbus_opath_hash_lookup_supported)

  // sbus_iface_list_copy: each name once, first occurrence kept, in reverse order
  // (every kept item is put at the head of the copy).
  function Copy(list: seq<Interface>): seq<Interface>
    decreases |list|
  {
    if |list| == 0 then []
    else
      var c := Copy(list[..|list| - 1]);
      var x := list[|list| - 1];
      if ListLookup(c, Name(x)).Some? then c else [x] + c
  }

  function Reverse<T>(s: seq<T>): (r: seq<T>)
    ensures |r| == |s|
    ensures forall i :: 0 <= i < |s| ==> r[i] == s[|s| - 1 - i]
  {
    if |s| == 0 then [] else [s[|s| - 1]] + Reverse(s[..|s| - 1])
  }

  // The copy keeps each name once.
  lemma {:induction false} CopyUnique(list: seq<Interface>)
    ensures UniqueNames(Copy(list))
    decreases |list|
  {
    if |list| > 0 {
      var init := list[..|list| - 1];
      var x := list[|list| - 1];
      CopyUnique(init);
      var c := Copy(init);
      if ListLookup(c, Name(x)).None? {
        var c' := [x] + c;
        assert forall j :: 1 <= j < |c'| ==> c'[j] == c[j - 1];
      }
    }
  }

  // Every name of the list is in the copy.
  lemma {:induction false} CopyCovers(list: seq<Interface>)
    ensures forall x :: x in list ==> ListLookup(Copy(list), Name(x)).Some?
    decreases |list|
  {
    if |list| > 0 {
      var init := list[..|list| - 1];
      var x := list[|list| - 1];
      CopyCovers(init);
      var c := Copy(init);
      assert forall y :: y in list ==> y in init || y == x;
      if ListLookup(c, Name(x)).None? {
        forall y | y in list ensures ListLookup([x] + c, Name(y)).Some? {
          ConcatLookup([x], c, Name(y));
        }
      }
    }
  }

  // For each name it keeps, the copy keeps the first interface of the list that carries it.
  lemma {:induction false} CopyKeepsFirst(list: seq<Interface>)
    ensures forall x :: x in Copy(list) ==> ListLookup(list, Name(x)) == Some(x)
    decreases |list|
  {
    if |list| > 0 {
      var init := list[..|list| - 1];
      var x := list[|list| - 1];
      assert list == init + [x];
      CopyKeepsFirst(init);
      PrefixLookup(init, x);
      var c := Copy(init);
      if ListLookup(c, Name(x)).None? {
        CopyCovers(init);
        assert ListLookup(init, Name(x)).None?;
        assert forall y :: y in [x] + c ==> y == x || y in c;
      }
    }
  }

  // Looking a name up in a list extended at the end.
  lemma PrefixLookup(init: seq<Interface>, x: Interface)
    ensures forall n :: ListLookup(init, n).Some? ==> ListLookup(init + [x], n) == ListLookup(init, n)
    ensures ListLookup(init, Name(x)).None? ==> ListLookup(init + [x], Name(x)) == Some(x)
    ensures forall n :: ListLookup(init, n).None? && n != Name(x) ==> ListLookup(init + [x], n).None?
  {
    var l := init + [x];
    assert l[..|init|] == init;
    forall n | ListLookup(init, n).Some?
      ensures ListLookup(l, n) == ListLookup(init, n)
    {
      ConcatLookup(init, [x], n);
    }
    ConcatLookup(init, [x], Name(x));
    forall n | ListLookup(init, n).None? && n != Name(x)
      ensures ListLookup(l, n).None?
    {
      ConcatLookup(init, [x], n);
    }
  }

  // Looking a name up in a concatenation looks in the first list, then in the second.
  lemma {:induction false} ConcatLookup(a: seq<Interface>, b: seq<Interface>, n: string)
    ensures ListLookup(a + b, n) == if ListLookup(a, n).Some? then ListLookup(a, n) else ListLookup(b, n)
    decreases |a|
  {
    if |a| > 0 {
      assert (a + b)[1..] == a[1..] + b;
      ConcatLookup(a[1..], b, n);
    } else {
      assert a + b == b;
    }
  }

  // On a list whose names are already unique (every list in the table), the copy is the list reversed.
  lemma {:induction false} CopyOfUniqueIsReverse(list: seq<Interface>)
    requires UniqueNames(list)
    ensures Copy(list) == Reverse(list)
    decreases |list|
  {
    if |list| > 0 {
      var init := list[..|list| - 1];
      var x := list[|list| - 1];
      assert UniqueNames(init);
      CopyOfUniqueIsReverse(init);
      CopyKeepsFirst(init);
      CopyCovers(init);
      assert ListLookup(Copy(init), Name(x)).None? by {
        forall y | y in Copy(init) ensures Name(y) != Name(x) {
          assert ListLookup(init, Name(y)) == Some(y);
        }
      }
      assert Reverse(list) == [x] + Reverse(init);
    }
  }

  // The supported interfaces along a walk: each existing level's copy, most specific level first.
  function SupportedAt(t: Table, levels: seq<string>): seq<Interface>
    decreases |levels|
  {
    if |levels| == 0 then []
    else (if levels[0] in t then Copy(t[levels[0]]) else []) + SupportedAt(t, levels[1..])
  }

  // What sbus_opath_hash_lookup_supported lists for `path`.
  function LookupSupported(t: Table, path: string): seq<Interface>
  {
    SupportedAt(t, Levels(path))
  }

  // What is left to list once the walk has reached `lookupPath`.
  function SupportedFrom(t: Table, lookupPath: Option<string>): seq<Interface>
  {
    match lookupPath
    case None => []
    case Some(p) => SupportedAt(t, Levels(p))
  }

  // One level of the walk: the level's copy, then the rest of the walk.
  lemma SupportedStep(t: Table, p: string)
    ensures SupportedFrom(t, Some(p)) ==
      (if p in t then Copy(t[p]) else []) + SupportedFrom(t, ParentSubtree(p))
  {
    var ls := Levels(p);
    var head := if p in t then Copy(t[p]) else [];
    assert SupportedAt(t, ls) == head + SupportedAt(t, ls[1..]);
    match ParentSubtree(p)
    case None =>
      assert ls[1..] == [];
      assert head + [] == head;
    case Some(q) =>
      assert ls[1..] == Levels(q);
  }

  // Advancing the walk by one level moves that level's copy from what is left
  // to list onto what has been listed.
  lemma SupportedAdvance(t: Table, listed: seq<Interface>, p: string, whole: seq<Interface>)
    requires listed + SupportedFrom(t, Some(p)) == whole
    ensures (listed + (if p in t then Copy(t[p]) else [])) + SupportedFrom(t, ParentSubtree(p)) == whole
  {
    SupportedStep(t, p);
    ConcatAssoc(listed, if p in t then Copy(t[p]) else [], SupportedFrom(t, ParentSubtree(p)));
  }

  lemma ConcatAssoc<T>(a: seq<T>, b: seq<T>, c: seq<T>)
    ensures a + (b + c) == (a + b) + c
  {
  }

  // An interface is listed exactly when it is registered on some level of the walk.
  lemma {:induction false} SupportedMembers(t: Table, levels: seq<string>, x: Interface)
    requires TableUnique(t)
    ensures x in SupportedAt(t, levels) <==>
      exists j :: 0 <= j < |levels| && levels[j] in t && x in t[levels[j]]
    decreases |levels|
  {
    if |levels| > 0 {
      var rest := levels[1..];
      SupportedMembers(t, rest, x);
      assert forall j :: 1 <= j < |levels| ==> levels[j] == rest[j - 1];
      if levels[0] in t {
        CopyOfUniqueIsReverse(t[levels[0]]);
        var r := Reverse(t[levels[0]]);
        assert x in r <==> x in t[levels[0]] by {
          if x in t[levels[0]] {
            var i :| 0 <= i < |t[levels[0]]| && t[levels[0]][i] == x;
            assert r[|r| - 1 - i] == x;
          }
        }
      }
      if x in SupportedAt(t, rest) {
        var j :| 0 <= j < |rest| && rest[j] in t && x in t[rest[j]];
        assert levels[j + 1] == rest[j];
      }
    }
  }

  // The lookup of one interface agrees with the first entry of that name in the supported list.
  lemma {:induction false} LookupIsFirstSupported(t: Table, levels: seq<string>, name: string)
    ensures FindIn(t, levels, name) == ListLookup(SupportedAt(t, levels), name)
    decreases |levels|
  {
    if |levels| > 0 {
      var head := if levels[0] in t then Copy(t[levels[0]]) else [];
      LookupIsFirstSupported(t, levels[1..], name);
      ConcatLookup(head, SupportedAt(t, levels[1..]), name);
      if levels[0] in t {
        CopyLookup(t[levels[0]], name);
      }
    }
  }

  // The copy answers a name lookup as the list it was copied from does.
  lemma CopyLookup(list: seq<Interface>, name: string)
    ensures ListLookup(Copy(list), name) == ListLookup(list, name)
  {
    CopyKeepsFirst(list);
    CopyCovers(list);
  }

  // ---------------------------------------------------------------------
  // The loop of sbus_iface_list_copy

  method IfaceListCopy(list: seq<Interface>) returns (copy: seq<Interface>)
    ensures copy == Copy(list)
    ensures UniqueNames(copy)
    ensures forall x :: x in list ==> ListLookup(copy, Name(x)).Some?
    ensures forall x :: x in copy ==> ListLookup(list, Name(x)) == Some(x)
  {
    copy := [];
    var i := 0;
    while i < |list|
      invariant 0 <= i <= |list|
      invariant copy == Copy(list[..i])
    {
      assert list[..i + 1][..i] == list[..i];
      if ListLookup(copy, Name(list[i])).None? {
        copy := [list[i]] + copy;
      }
      i := i + 1;
    }
    assert list[..i] == list;
    CopyUnique(list);
    CopyCovers(list);
    CopyKeepsFirst(list);
  }
}
