/**
 * What each operation of the bookmark store computes, as functions of the map
 * it loaded, and the properties of those functions. The class in module `Db`
 * performs the same steps in place and is proved to produce these values.
 */
module Store {
  import opened Options
  import opened OrderedMap
  import opened Bookmark

  /** One file path and its bookmarks; a whole store is a sequence of these. */
  type Entry = (string, seq<Record>)
  type Items = seq<Entry>

  /**
   * The shape the store keeps when it is the only writer: each path once,
   * no path with an empty list, no two bookmarks of a path on one line.
   */
  ghost predicate WellFormed(items: Items) {
    DistinctKeys(items) &&
    forall i :: 0 <= i < |items| ==> items[i].1 != [] && UniqueLines(items[i].1)
  }

  /** A list the store may hold for a path: not empty, lines unique. */
  ghost predicate ListOk(bs: seq<Record>) {
    bs != [] && UniqueLines(bs)
  }

  /** In a well-formed map, every path's list is one the store may hold. */
  lemma {:induction false} WellFormedGet(items: Items)
    requires WellFormed(items)
    ensures forall k :: k in Keys(items) ==> ListOk(Get(items, k).value)
  {
    forall k | k in Keys(items) ensures ListOk(Get(items, k).value) {
      var i :| 0 <= i < |items| && Keys(items)[i] == k;
      assert Get(items, k) == Some(items[i].1);
    }
  }

  /** A map without repeats whose every list is acceptable is well formed. */
  lemma {:induction false} WellFormedFromGet(items: Items)
    requires DistinctKeys(items)
    requires forall k :: k in Keys(items) ==> ListOk(Get(items, k).value)
    ensures WellFormed(items)
  {
    forall i | 0 <= i < |items| ensures items[i].1 != [] && UniqueLines(items[i].1) {
      assert Keys(items)[i] == items[i].0;
      assert Get(items, items[i].0) == Some(items[i].1);
    }
  }

  /** Setting an acceptable list keeps a store well formed. */
  lemma {:induction false} SetKeepsWellFormed(items: Items, path: string, bs: seq<Record>)
    requires WellFormed(items)
    requires ListOk(bs)
    ensures WellFormed(Set(items, path, bs))
  {
    var r := Set(items, path, bs);
    SetDistinct(items, path, bs);
    WellFormedGet(items);
    forall k | k in Keys(r) ensures ListOk(Get(r, k).value) {
      if k != path {
        assert Get(r, k) == Get(items, k);
      }
    }
    WellFormedFromGet(r);
  }

  /** Removing a path keeps a store well formed. */
  lemma {:induction false} RemoveKeepsWellFormed(items: Items, path: string)
    requires WellFormed(items)
    ensures WellFormed(Remove(items, path))
  {
    if path in Keys(items) {
      var r := Remove(items, path);
      var i :| 0 <= i < |items| && Keys(items)[i] == path;
      RemoveAt(items, i);
      WellFormedGet(items);
      forall k | k in Keys(r) ensures ListOk(Get(r, k).value) {
        assert Get(r, k) == Get(items, k);
      }
      WellFormedFromGet(r);
    }
  }

  // ---------------------------------------------------------------------------
  // load
  // ---------------------------------------------------------------------------

  /** The entries whose path is a regular file, in their order, lists untouched. */
  function Pruned(m: Items, isFile: set<string>): (r: Items)
    ensures |r| <= |m|
    ensures forall i :: 0 <= i < |r| ==> r[i].0 in isFile && r[i] in m
  {
    if m == [] then []
    else (if m[0].0 in isFile then [m[0]] else []) + Pruned(m[1..], isFile)
  }

  /**
   * The map `load` returns for a backing file state: nothing when the file is
   * missing or not a regular file, otherwise the parsed pairs rebuilt into a
   * `Map` and stripped of paths that are not regular files.
   */
  function Loaded(disk: Option<Items>, isFile: set<string>): (r: Items)
    ensures disk.None? ==> r == []
    ensures disk.Some? ==> |r| <= |disk.value|
    ensures forall i :: 0 <= i < |r| ==> r[i].0 in isFile
  {
    match disk
    case None => []
    case Some(pairs) => Pruned(FromPairs(pairs), isFile)
  }

  /** Pruning a concatenation prunes each part. */
  lemma {:induction false} PrunedAppend(a: Items, b: Items, isFile: set<string>)
    ensures Pruned(a + b, isFile) == Pruned(a, isFile) + Pruned(b, isFile)
  {
    if a == [] {
      assert a + b == b;
    } else {
      var head := if a[0].0 in isFile then [a[0]] else [];
      assert (a + b)[0] == a[0];
      assert (a + b)[1..] == a[1..] + b;
      calc {
        Pruned(a + b, isFile);
        head + Pruned(a[1..] + b, isFile);
        { PrunedAppend(a[1..], b, isFile); }
        head + (Pruned(a[1..], isFile) + Pruned(b, isFile));
        (head + Pruned(a[1..], isFile)) + Pruned(b, isFile);
      }
    }
  }

  /**
   * One step of `load`'s loop, which deletes the non-files from the parsed
   * map while iterating over its keys: after visiting entry `i`, the visited
   * prefix is pruned and the rest is untouched.
   */
  lemma {:induction false} PruneStep(parsed: Items, i: int, items: Items, isFile: set<string>)
    requires 0 <= i < |parsed|
    requires DistinctKeys(items)
    requires items == Pruned(parsed[..i], isFile) + parsed[i..]
    ensures var next := if parsed[i].0 in isFile then items else Remove(items, parsed[i].0);
            next == Pruned(parsed[..i + 1], isFile) + parsed[i + 1..] && DistinctKeys(next)
  {
    var done, e, rest := Pruned(parsed[..i], isFile), parsed[i], parsed[i + 1..];
    assert parsed[..i + 1] == parsed[..i] + [e];
    PrunedSnoc(parsed[..i], e, isFile);
    assert Pruned(parsed[..i + 1], isFile) == done + if e.0 in isFile then [e] else [];
    assert parsed[i..] == [e] + rest;
    assert items == done + [e] + rest;
    PruneEntry(done, e, rest, isFile);
  }

  /** The loop step on a map split around the entry being visited. */
  lemma {:induction false} PruneEntry(done: Items, e: Entry, rest: Items, isFile: set<string>)
    requires DistinctKeys(done + [e] + rest)
    ensures var items := done + [e] + rest;
            var next := if e.0 in isFile then items else Remove(items, e.0);
            next == (done + if e.0 in isFile then [e] else []) + rest && DistinctKeys(next)
  {
    if e.0 !in isFile {
      RemoveMiddle(done, e, rest);
    }
  }

  /** Pruning one more entry appends it when it is a regular file and nothing otherwise. */
  lemma {:induction false} PrunedSnoc(prefix: Items, e: Entry, isFile: set<string>)
    ensures Pruned(prefix + [e], isFile) == Pruned(prefix, isFile) + if e.0 in isFile then [e] else []
  {
    PrunedAppend(prefix, [e], isFile);
    assert [e][1..] == [];
  }

  /** In a map without repeats, removing the key of a middle entry cuts out that entry. */
  lemma {:induction false} RemoveMiddle(a: Items, e: Entry, b: Items)
    requires DistinctKeys(a + [e] + b)
    ensures Remove(a + [e] + b, e.0) == a + b
    ensures DistinctKeys(a + b)
  {
    var m := a + [e] + b;
    assert m[|a|] == e;
    RemoveAt(m, |a|);
    assert m[..|a|] == a && m[|a| + 1..] == b;
  }

  /** Pruning neither invents a path nor keeps one that is not a regular file. */
  lemma {:induction false} PrunedKeys(m: Items, isFile: set<string>)
    ensures forall k :: k in Keys(Pruned(m, isFile)) ==> k in Keys(m) && k in isFile
  {
    if m != [] {
      PrunedKeys(m[1..], isFile);
      var r := Pruned(m, isFile);
      var rest := Pruned(m[1..], isFile);
      forall k | k in Keys(r) ensures k in Keys(m) && k in isFile {
        if m[0].0 in isFile && k == m[0].0 {
          assert Keys(m)[0] == k;
        } else {
          assert k in Keys(rest) by {
            var i :| 0 <= i < |r| && Keys(r)[i] == k;
            if m[0].0 in isFile {
              assert Keys(rest)[i - 1] == k;
            } else {
              assert Keys(rest)[i] == k;
            }
          }
          var i :| 0 <= i < |m[1..]| && Keys(m[1..])[i] == k;
          assert Keys(m)[i + 1] == k;
        }
      }
    }
  }

  /** Pruning keeps the lists of exactly the paths that are regular files. */
  lemma {:induction false} PrunedGet(m: Items, isFile: set<string>)
    ensures forall k :: Get(Pruned(m, isFile), k) == if k in isFile then Get(m, k) else None
  {
    if m != [] {
      PrunedGet(m[1..], isFile);
      var r := Pruned(m, isFile);
      if m[0].0 in isFile {
        assert r == [m[0]] + Pruned(m[1..], isFile);
      } else {
        assert r == Pruned(m[1..], isFile);
      }
    }
  }

  /** Pruning a map without repeats leaves none. */
  lemma {:induction false} PrunedDistinct(m: Items, isFile: set<string>)
    requires DistinctKeys(m)
    ensures DistinctKeys(Pruned(m, isFile))
  {
    if m != [] {
      var tail := m[1..];
      assert DistinctKeys(tail);
      PrunedDistinct(tail, isFile);
      PrunedKeys(tail, isFile);
      var rest := Pruned(tail, isFile);
      assert m[0].0 !in Keys(tail);
      var r := Pruned(m, isFile);
      if m[0].0 in isFile {
        assert r == [m[0]] + rest;
        forall a, b | 0 <= a < b < |r| ensures r[a].0 != r[b].0 {
          if a == 0 {
            assert Keys(rest)[b - 1] == r[b].0;
          } else {
            assert r[a] == rest[a - 1] && r[b] == rest[b - 1];
          }
        }
      } else {
        assert r == rest;
      }
    }
  }

  /**
   * `load` keeps, of the stored pairs, exactly the paths that are regular
   * files, each with the list stored for it; no path twice. When the stored
   * pairs repeat no path, the result is the stored sequence itself with the
   * other paths cut out: same order, same lists.
   */
  lemma {:induction false} LoadKeepsRegularFiles(pairs: Items, isFile: set<string>)
    ensures DistinctKeys(Loaded(Some(pairs), isFile))
    ensures forall k :: Get(Loaded(Some(pairs), isFile), k) ==
                        if k in isFile then Get(FromPairs(pairs), k) else None
    ensures DistinctKeys(pairs) ==> Loaded(Some(pairs), isFile) == Pruned(pairs, isFile)
  {
    FromPairsDistinct(pairs);
    PrunedDistinct(FromPairs(pairs), isFile);
    PrunedGet(FromPairs(pairs), isFile);
    if DistinctKeys(pairs) {
      FromDistinctPairs(pairs);
    }
  }

  /** When every stored path is a regular file and none repeats, `load` returns the stored pairs. */
  lemma {:induction false} LoadAllFiles(pairs: Items, isFile: set<string>)
    requires DistinctKeys(pairs)
    requires forall i :: 0 <= i < |pairs| ==> pairs[i].0 in isFile
    ensures Loaded(Some(pairs), isFile) == pairs
  {
    FromDistinctPairs(pairs);
    PrunedAll(pairs, isFile);
  }

  /** When every path is a regular file, pruning changes nothing. */
  lemma {:induction false} PrunedAll(m: Items, isFile: set<string>)
    requires forall i :: 0 <= i < |m| ==> m[i].0 in isFile
    ensures Pruned(m, isFile) == m
  {
    if m != [] {
      assert forall i :: 0 <= i < |m[1..]| ==> m[1..][i] == m[i + 1];
      PrunedAll(m[1..], isFile);
    }
  }

  /** A store written only by this model stays well formed through `load`. */
  lemma {:induction false} LoadKeepsWellFormed(pairs: Items, isFile: set<string>)
    requires WellFormed(pairs)
    ensures WellFormed(Loaded(Some(pairs), isFile))
  {
    FromDistinctPairs(pairs);
    PrunedWellFormed(pairs, isFile);
  }

  /** Pruning keeps a well-formed store well formed. */
  lemma {:induction false} PrunedWellFormed(m: Items, isFile: set<string>)
    requires WellFormed(m)
    ensures WellFormed(Pruned(m, isFile))
  {
    PrunedDistinct(m, isFile);
    PrunedGet(m, isFile);
    PrunedKeys(m, isFile);
    var r := Pruned(m, isFile);
    forall i | 0 <= i < |r| ensures r[i].1 != [] && UniqueLines(r[i].1) {
      assert Keys(r)[i] == r[i].0;
      assert r[i].0 in Keys(m);
      var j :| 0 <= j < |m| && Keys(m)[j] == r[i].0;
      assert Get(r, r[i].0) == Some(r[i].1) == Get(m, m[j].0) == Some(m[j].1);
    }
  }

  // ---------------------------------------------------------------------------
  // add
  // ---------------------------------------------------------------------------

  /**
   * The map after the capacity check of `add`: when it holds `maxsize` paths
   * the first one goes, whichever path is being added. With `maxsize == 0`
   * and an empty map there is no first entry to take, so this is undefined.
   */
  function Evicted(items: Items, maxsize: int): (r: Items)
    requires |items| == maxsize ==> items != []
    ensures |items| == maxsize ==> items[0].0 !in Keys(r)
    ensures |items| == maxsize ==> forall k :: k != items[0].0 ==> Get(r, k) == Get(items, k)
    ensures |items| != maxsize ==> r == items
  {
    if |items| == maxsize then Remove(items, items[0].0) else items
  }

  /**
   * What `add(data, path)` writes, given the map it loaded; `None` when it
   * throws before writing (`[...items][0][0]` on an empty map at capacity 0).
   */
  function Added(items: Items, maxsize: int, data: Record, path: string): (r: Option<Items>)
    ensures r.None? <==> maxsize == 0 && items == []
  {
    if |items| == maxsize && items == [] then None
    else
      var kept := Evicted(items, maxsize);
      var bookmarks := WithoutLine(Get(kept, path).GetOr([]), data.lnum) + [data];
      Some(Set(kept, path, bookmarks))
  }

  /** Eviction removes precisely the first entry of a map without repeats. */
  lemma {:induction false} EvictedFirst(items: Items, maxsize: int)
    requires DistinctKeys(items)
    requires |items| == maxsize ==> items != []
    ensures Evicted(items, maxsize) == if |items| == maxsize then items[1..] else items
    ensures DistinctKeys(Evicted(items, maxsize))
  {
    if |items| == maxsize {
      RemoveAt(items, 0);
      assert items[..0] + items[1..] == items[1..];
    }
  }

  /** A map at or below capacity is at or below capacity after `add`. */
  lemma {:induction false} AddKeepsCapacity(items: Items, maxsize: int, data: Record, path: string)
    requires DistinctKeys(items)
    requires |items| <= maxsize
    requires Added(items, maxsize, data, path).Some?
    ensures |Added(items, maxsize, data, path).value| <= maxsize
  {
    EvictedFirst(items, maxsize);
    var kept := Evicted(items, maxsize);
    var r := Added(items, maxsize, data, path).value;
    assert |r| == |Keys(r)| && |kept| == |Keys(kept)|;
  }

  /**
   * After `add`, the list under `path` ends with `data` and holds no other
   * bookmark on its line; before it come the bookmarks that path had after
   * loading (none, if it was the evicted path), minus those on that line, in
   * their order.
   */
  lemma {:induction false} AddReplacesLine(items: Items, maxsize: int, data: Record, path: string)
    requires Added(items, maxsize, data, path).Some?
    ensures var evicted := |items| == maxsize && items[0].0 == path;
            var prior := if evicted then [] else Get(items, path).GetOr([]);
            var l := Get(Added(items, maxsize, data, path).value, path).value;
            Get(Added(items, maxsize, data, path).value, path).Some? &&
            |l| > 0 && l[|l| - 1] == data &&
            !HasLine(l[..|l| - 1], data.lnum) &&
            l[..|l| - 1] == WithoutLine(prior, data.lnum)
  {
    var kept := Evicted(items, maxsize);
    var prior := Get(kept, path).GetOr([]);
    var bs := WithoutLine(prior, data.lnum) + [data];
    assert Added(items, maxsize, data, path).value == Set(kept, path, bs);
    assert Get(Set(kept, path, bs), path) == Some(bs);
    assert bs[..|bs| - 1] == WithoutLine(prior, data.lnum);
    if |items| == maxsize && items[0].0 != path {
      assert Get(kept, path) == Get(items, path);
    }
  }

  /**
   * `add` changes no path other than `path` and the evicted first path: each
   * other path keeps its list, and the evicted one is gone.
   */
  lemma {:induction false} AddLeavesOthers(items: Items, maxsize: int, data: Record, path: string)
    requires Added(items, maxsize, data, path).Some?
    ensures var r := Added(items, maxsize, data, path).value;
            var evicting := |items| == maxsize;
            (forall k :: k != path && !(evicting && k == items[0].0) ==> Get(r, k) == Get(items, k)) &&
            (evicting && items[0].0 != path ==> Get(r, items[0].0) == None)
  {
  }

  /**
   * `add` of a path the loaded map does not hold appends it at the end with
   * `data` as its only bookmark, after evicting the first path at capacity.
   */
  lemma {:induction false} AddNewPath(items: Items, maxsize: int, data: Record, path: string)
    requires DistinctKeys(items)
    requires path !in Keys(items)
    requires Added(items, maxsize, data, path).Some?
    ensures Added(items, maxsize, data, path) ==
              Some((if |items| == maxsize then items[1..] else items) + [(path, [data])])
  {
    EvictedFirst(items, maxsize);
    var kept := Evicted(items, maxsize);
    if |items| == maxsize {
      assert Keys(items)[0] == items[0].0;
      assert Get(kept, path) == Get(items, path) == None;
    }
    assert WithoutLine([], data.lnum) + [data] == [data];
    SetNew(kept, path, [data]);
  }

  /**
   * The order of paths after `add`: that of the map after eviction, with a
   * new `path` appended at the end and a present one left in its place.
   */
  lemma {:induction false} AddKeyOrder(items: Items, maxsize: int, data: Record, path: string)
    requires DistinctKeys(items)
    requires Added(items, maxsize, data, path).Some?
    ensures var before := if |items| == maxsize then Keys(items)[1..] else Keys(items);
            Keys(Added(items, maxsize, data, path).value) ==
              if path in before then before else before + [path]
  {
    EvictedFirst(items, maxsize);
    if |items| == maxsize {
      assert Keys(items[1..]) == Keys(items)[1..];
    }
  }

  /** `add` keeps a well-formed store well formed. */
  lemma {:induction false} AddKeepsWellFormed(items: Items, maxsize: int, data: Record, path: string)
    requires WellFormed(items)
    requires Added(items, maxsize, data, path).Some?
    ensures WellFormed(Added(items, maxsize, data, path).value)
  {
    if |items| == maxsize {
      RemoveKeepsWellFormed(items, items[0].0);
    }
    var kept := Evicted(items, maxsize);
    var prior := Get(kept, path).GetOr([]);
    WellFormedGet(kept);
    assert UniqueLines(prior);
    ReplaceLineUnique(prior, data);
    var bookmarks := WithoutLine(prior, data.lnum) + [data];
    SetKeepsWellFormed(kept, path, bookmarks);
  }

  // ---------------------------------------------------------------------------
  // delete
  // ---------------------------------------------------------------------------

  /**
   * What `delete(path, lnum)` writes, given the map it loaded; `None` when
   * `path` is absent and nothing is written.
   */
  function Deleted(items: Items, path: string, lnum: Option<int>): (r: Option<Items>)
    ensures r.None? <==> path !in Keys(items)
  {
    match Get(items, path)
    case None => None
    case Some(bookmarks) =>
      if lnum.Some? then
        var rest := WithoutLine(bookmarks, lnum.value);
        if |rest| == 0 then Some(Remove(items, path)) else Some(Set(items, path, rest))
      else Some(Remove(items, path))
  }

  /**
   * `delete(path, n)` on a present path: the path disappears exactly when
   * every one of its bookmarks was on line `n`; otherwise it keeps the
   * bookmarks on other lines, in order, and none on `n`. No empty list is
   * ever written for `path`.
   */
  lemma {:induction false} DeleteLine(items: Items, path: string, n: int)
    requires path in Keys(items)
    ensures var bs := Get(items, path).value;
            var after := Get(Deleted(items, path, Some(n)).value, path);
            (after.None? <==> forall b :: b in bs ==> b.lnum == n) &&
            (after.Some? ==> after.value != [] && after.value == WithoutLine(bs, n) &&
                             !HasLine(after.value, n))
  {
    var bs := Get(items, path).value;
    var rest := WithoutLine(bs, n);
    var after := Get(Deleted(items, path, Some(n)).value, path);
    if rest == [] {
      assert after == None;
    } else {
      assert after == Some(rest);
      assert rest[0] in bs && rest[0].lnum != n;
    }
  }

  /** `delete(path)` without a line removes the path whatever its list holds. */
  lemma {:induction false} DeleteWholePath(items: Items, path: string)
    requires path in Keys(items)
    ensures path !in Keys(Deleted(items, path, None).value)
  {
  }

  /**
   * `delete` of a path that is not a regular file never writes: `load` has
   * already dropped it, so it is never found.
   */
  lemma {:induction false} DeleteVanishedPath(disk: Option<Items>, isFile: set<string>, path: string, lnum: Option<int>)
    requires path !in isFile
    ensures Deleted(Loaded(disk, isFile), path, lnum).None?
  {
    if disk.Some? {
      PrunedKeys(FromPairs(disk.value), isFile);
    }
  }

  /** `delete` changes no other path. */
  lemma {:induction false} DeleteLeavesOthers(items: Items, path: string, lnum: Option<int>)
    requires path in Keys(items)
    ensures forall k :: k != path ==> Get(Deleted(items, path, lnum).value, k) == Get(items, k)
  {
  }

  /**
   * The order of paths after `delete`: unchanged when `path` stays, and with
   * `path` cut out of its place when it goes.
   */
  lemma {:induction false} DeleteKeyOrder(items: Items, path: string, lnum: Option<int>, i: int)
    requires DistinctKeys(items)
    requires 0 <= i < |items| && items[i].0 == path
    ensures var r := Deleted(items, path, lnum).value;
            DistinctKeys(r) &&
            Keys(r) == if path in Keys(r) then Keys(items) else Keys(items)[..i] + Keys(items)[i + 1..]
  {
    var r := Deleted(items, path, lnum).value;
    if path in Keys(r) {
      SetDistinct(items, path, Get(r, path).value);
    } else {
      RemoveAt(items, i);
      KeysSplice(items, i);
    }
  }

  /**
   * Deleting a line a present path has no bookmark on writes back the loaded
   * map unchanged (which still makes the pruning of `load` durable).
   */
  lemma {:induction false} DeleteMissingLine(items: Items, path: string, n: int)
    requires DistinctKeys(items)
    requires path in Keys(items)
    requires Get(items, path).value != [] && !HasLine(Get(items, path).value, n)
    ensures Deleted(items, path, Some(n)) == Some(items)
  {
    var bs := Get(items, path).value;
    var r := Set(items, path, bs);
    SetDistinct(items, path, bs);
    forall k ensures Get(r, k) == Get(items, k) {
    }
    Extensionality(r, items);
  }

  /** `delete` keeps a well-formed store well formed. */
  lemma {:induction false} DeleteKeepsWellFormed(items: Items, path: string, lnum: Option<int>)
    requires WellFormed(items)
    requires path in Keys(items)
    ensures WellFormed(Deleted(items, path, lnum).value)
  {
    var bs := Get(items, path).value;
    RemoveKeepsWellFormed(items, path);
    if lnum.Some? && WithoutLine(bs, lnum.value) != [] {
      WellFormedGet(items);
      WithoutLineUnique(bs, lnum.value);
      SetKeepsWellFormed(items, path, WithoutLine(bs, lnum.value));
    }
  }

  // ---------------------------------------------------------------------------
  // worked examples
  // ---------------------------------------------------------------------------

  /**
   * Two bookmarks on one file, the first deleted by line, then the file
   * deleted: the map each step writes, each step applied to the map the
   * previous one wrote.
   */
  lemma {:induction false} EndToEndExample()
    ensures var f := "/a/b.go";
            var r10, r20 := Record(10, None), Record(20, Some("todo"));
            var s1 := Added([], 10, r10, f).value;
            var s2 := Added(s1, 10, r20, f).value;
            var s3 := Deleted(s2, f, Some(10)).value;
            s1 == [(f, [r10])] && s2 == [(f, [r10, r20])] && s3 == [(f, [r20])] &&
            Deleted(s3, f, None).value == []
  {
    var f := "/a/b.go";
    var r10, r20 := Record(10, None), Record(20, Some("todo"));
    ExampleFirstAdd(f, r10);
    ExampleSecondAdd(f, r10, r20);
    ExampleDeleteLine(f, r10, r20);
    assert Deleted([(f, [r20])], f, None).value == [];
  }

  /** The first bookmark on a file, in an empty store. */
  lemma {:induction false} ExampleFirstAdd(f: string, r: Record)
    ensures Added([], 10, r, f).value == [(f, [r])]
  {
    assert WithoutLine([], r.lnum) + [r] == [r];
  }

  /** A second bookmark, on another line of the same file, goes after the first. */
  lemma {:induction false} ExampleSecondAdd(f: string, r10: Record, r20: Record)
    requires r10.lnum != r20.lnum
    ensures Added([(f, [r10])], 10, r20, f).value == [(f, [r10, r20])]
  {
    assert Get([(f, [r10])], f) == Some([r10]);
    assert !HasLine([r10], r20.lnum);
    assert WithoutLine([r10], r20.lnum) + [r20] == [r10, r20];
  }

  /** Deleting the first bookmark's line leaves the second. */
  lemma {:induction false} ExampleDeleteLine(f: string, r10: Record, r20: Record)
    requires r10.lnum != r20.lnum
    ensures Deleted([(f, [r10, r20])], f, Some(r10.lnum)).value == [(f, [r20])]
  {
    assert Get([(f, [r10, r20])], f) == Some([r10, r20]);
    assert WithoutLine([r10, r20], r10.lnum) == [r20] by {
      assert WithoutLine([r20], r10.lnum) == [r20] by {
        assert !HasLine([r20], r10.lnum);
      }
    }
  }

  /**
   * A bookmarked file that has disappeared: `load` drops it although the
   * backing file still holds it, and `delete` of that path writes nothing.
   */
  lemma {:induction false} PruningExample()
    ensures var a, b := "/a", "/b";
            var pairs := [(a, [Record(1, None)]), (b, [Record(2, None)])];
            Loaded(Some(pairs), {b}) == [(b, [Record(2, None)])] &&
            Deleted(Loaded(Some(pairs), {b}), a, None).None?
  {
    var a, b := "/a", "/b";
    var pairs := [(a, [Record(1, None)]), (b, [Record(2, None)])];
    assert DistinctKeys(pairs);
    FromDistinctPairs(pairs);
    assert pairs[1..] == [pairs[1]] && pairs[1..][1..] == [];
    assert Pruned(pairs, {b}) == [pairs[1]];
  }
}
