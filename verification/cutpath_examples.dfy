/**
 Worked examples of the path normaliser on concrete paths.

 The path under study is a parameter fixed by a precondition rather than a
 string literal in the lemma's statement: Dafny unfolds a recursive function
 applied to a literal, and unfolding `Split` on a long literal is costly. For
 the same reason each example first shows, in a lemma of its own, that the
 literal is the join of its segments, and then argues about the segments.
 */
module CutPathExamples {
  import opened Wrappers
  import opened Strings
  import opened Segments
  import opened CutPath

  /** Query removal on "a/b?x=1" gives "a/b". */
  lemma CutQueryExample(path: string)
    requires path == "a/b?x=1"
    ensures CutQuery(path) == "a/b"
  {
    assert path == Join(["a/b", "x=1"], '?');
    SplitJoin(["a/b", "x=1"], '?');
  }

  /** Bounds (2, 1) on "/a/b" (three segments) make the slice panic. */
  lemma SliceReversedBoundsPanic()
    ensures !SliceDefined("/a/b", 2, 1)
  {
    SplitJoin(["", "a", "b"], '/');
  }

  /** "/a/b/c/d" is the join of its five segments. */
  lemma ABCDSegments(path: string)
    requires path == "/a/b/c/d"
    ensures path == Join(["", "a", "b", "c", "d"], '/')
  {
    JoinFive("", "a", "b", "c", "d", '/');
  }

  /** Bounds (1, 3) keep the segments "a" and "b" of "/a/b/c/d". */
  lemma SliceABCD(path: string)
    requires path == Join(["", "a", "b", "c", "d"], '/')
    ensures SliceDefined(path, 1, 3)
    ensures SlicePath(path, 1, 3) == Join(["a", "b"], '/')
  {
    var sl := ["", "a", "b", "c", "d"];
    SliceOfJoin(sl, 1, 3);
    assert sl[1..3] == ["a", "b"];
  }

  /** Slicing is not idempotent in general: bounds (1, 3) cut "/a/b/c/d" to
      "a/b", and "a/b" further to "b". */
  lemma SliceNotIdempotent(path: string)
    requires path == "/a/b/c/d"
    ensures SliceDefined(path, 1, 3)
    ensures SlicePath(path, 1, 3) == "a/b"
    ensures SliceDefined(SlicePath(path, 1, 3), 1, 3)
    ensures SlicePath(SlicePath(path, 1, 3), 1, 3) == "b"
  {
    ABCDSegments(path);
    SliceABCD(path);
    SliceSecondOfTwo(SlicePath(path, 1, 3), "a", "b", 3);
  }

  /** "/users/123/orders/45,6" is the join of its five segments. */
  lemma UsersOrdersSegments(path: string)
    requires path == "/users/123/orders/45,6"
    ensures path == Join(["", "users", "123", "orders", "45,6"], '/')
  {
    JoinFive("", "users", "123", "orders", "45,6", '/');
  }

  /** Identifier removal on the segments of "/users/123/orders/45,6" keeps
      "", "users" and "orders". */
  lemma RemoveIdsUsersOrders(path: string)
    requires path == Join(["", "users", "123", "orders", "45,6"], '/')
    ensures RemoveIds(path) == Join(["", "users", "orders"], '/')
  {
    RemoveIdsOfJoin(["", "users", "123", "orders", "45,6"]);
    KeepNonIdsExample();
  }

  /** The segments "", "users" and "orders" join to "/users/orders". */
  lemma UsersOrdersLabel()
    ensures Join(["", "users", "orders"], '/') == "/users/orders"
  {
    JoinThree("", "users", "orders", '/');
  }

  /** Identifier removal on "/users/123/orders/45,6" gives "/users/orders":
      the empty first segment stays, "123" and "45,6" go, and no trailing
      `/` is left. */
  lemma RemoveIdsExample(path: string)
    requires path == "/users/123/orders/45,6"
    ensures RemoveIds(path) == "/users/orders"
  {
    UsersOrdersSegments(path);
    RemoveIdsUsersOrders(path);
    UsersOrdersLabel();
  }

  /** "/1/a" is the join of its three segments. */
  lemma OneASegments(path: string)
    requires path == "/1/a"
    ensures path == Join(["", "1", "a"], '/')
  {
    JoinThree("", "1", "a", '/');
  }

  /** Slicing "/1/a" to [1, 2) leaves the identifier "1", which is then dropped. */
  lemma SliceThenRemoveIds(path: string)
    requires path == "/1/a"
    ensures SliceDefined(path, 1, 2)
    ensures RemoveIds(SlicePath(path, 1, 2)) == ""
  {
    var sl := ["", "1", "a"];
    OneASegments(path);
    SliceOfJoin(sl, 1, 2);
    assert sl[1..2] == ["1"];
    assert IsId("1");
    RemoveIdsOfJoin(["1"]);
    assert KeepNonIds(["1"]) == [];
  }

  /** Dropping identifiers from "/1/a" gives "/a", whose segment 1 is "a". */
  lemma RemoveIdsThenSlice(path: string)
    requires path == "/1/a"
    ensures SliceDefined(RemoveIds(path), 1, 2)
    ensures SlicePath(RemoveIds(path), 1, 2) == "a"
  {
    OneASegments(path);
    assert IsId("1") && !IsIdChar("a"[0]);
    KeepNonIdsMiddle("", "1", "a");
    RemoveIdsOfJoin(["", "1", "a"]);
    SliceSecondOfTwo(RemoveIds(path), "", "a", 2);
  }

  /** The order of the steps matters: with bounds (1, 2) and identifier
      removal, "/1/a" becomes "" (slice to "1", then drop it), whereas
      dropping identifiers first and slicing afterwards would give "a". */
  lemma StepOrderMatters(path: string)
    requires path == "/1/a"
    ensures var o := CuttingPathOpts(false, Some((1, 2)), true);
      && NormalizeDefined(Some(o), path)
      && Normalize(Some(o), path) == ""
      && SliceStepDefined(o, IdStep(o, path))
      && SliceStep(o, IdStep(o, path)) == "a"
  {
    SliceThenRemoveIds(path);
    RemoveIdsThenSlice(path);
  }
}
