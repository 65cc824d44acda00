/**
 * The bookmark store `DB` of `src/util/db.ts`. It owns one JSON file holding
 * an array of `[path, bookmarks]` pairs. Every operation but `clear` loads the
 * whole file, changes the loaded map in place and writes the whole map back.
 *
 * The file system is abstracted: `disk` is the backing file (`None` when it is
 * missing or not a regular file, otherwise the pairs it holds, already parsed),
 * and `isFile` is the set of paths for which `statAsync(p).isFile()` holds.
 */
module Db {
  import opened Options
  import opened OrderedMap
  import opened Bookmark
  import opened Store

  class DB {
    /** The most paths the store keeps; `add` evicts when the loaded map holds exactly this many. */
    const maxsize: int
    /** The backing file. */
    var disk: Option<Items>
    /** The paths that are regular files right now. */
    var isFile: set<string>

    /** The backing file, when present, holds a store in the shape this class writes. */
    ghost predicate Consistent()
      reads this
    {
      disk.Some? ==> WellFormed(disk.value)
    }

    /** A store bound to its backing file, over a file system in the given state. */
    constructor (maxsize: int, disk: Option<Items>, isFile: set<string>)
      ensures this.maxsize == maxsize && this.disk == disk && this.isFile == isFile
    {
      this.maxsize := maxsize;
      this.disk := disk;
      this.isFile := isFile;
    }

    /**
     * `load()`: an empty map when the backing file is missing or not a regular
     * file; otherwise the stored pairs as a `Map`, with every path that is not
     * a regular file deleted while iterating. The backing file is only read.
     */
    method Load() returns (items: Items)
      ensures items == Loaded(disk, isFile)
      ensures disk.None? ==> items == []
      ensures DistinctKeys(items)
      ensures disk.Some? ==>
                forall k :: Get(items, k) == if k in isFile then Get(FromPairs(disk.value), k) else None
      ensures disk.Some? && DistinctKeys(disk.value) ==> items == Pruned(disk.value, isFile)
    {
      if disk.None? {
        return [];
      }
      var files := isFile;
      items := FromPairs(disk.value);
      ghost var parsed := items;
      FromPairsDistinct(disk.value);
      var keys := Keys(items);
      var i := 0;
      while i < |keys|
        invariant 0 <= i <= |keys| == |parsed|
        invariant keys == Keys(parsed)
        invariant items == Pruned(parsed[..i], files) + parsed[i..]
        invariant DistinctKeys(items)
      {
        var p := keys[i];
        assert p == parsed[i].0;
        PruneStep(parsed, i, items, files);
        if p !in files {
          items := Remove(items, p);
        }
        i := i + 1;
      }
      assert parsed[..i] == parsed;
      assert parsed[i..] == [];
      LoadKeepsRegularFiles(disk.value, files);
    }

    /**
     * `add(data, path)`: load; at capacity, delete the first path; drop the
     * bookmarks of `path` on `data`'s line, append `data`, set the list and
     * write the whole map. At capacity 0 an empty map has no first path to
     * delete: the call throws and nothing is written (`ok` is false).
     */
    method Add(data: Record, path: string) returns (ok: bool)
      modifies this`disk
      ensures ok <==> !(maxsize == 0 && old(Loaded(disk, isFile)) == [])
      ensures disk == if ok then Added(old(Loaded(disk, isFile)), maxsize, data, path) else old(disk)
      ensures old(Consistent()) ==> Consistent()
    {
      var items := Load();
      ghost var loaded := items;
      if |items| == maxsize {
        if items == [] {
          return false;
        }
        items := Remove(items, items[0].0);
      }
      var bookmarks := Get(items, path).GetOr([]);
      bookmarks := WithoutLine(bookmarks, data.lnum);
      bookmarks := bookmarks + [data];
      items := Set(items, path, bookmarks);
      if old(Consistent()) {
        if disk.Some? {
          LoadKeepsWellFormed(disk.value, isFile);
        }
        AddKeepsWellFormed(loaded, maxsize, data, path);
      }
      disk := Some(items);
      ok := true;
    }

    /**
     * `delete(path, lnum)`: load; if `path` is absent, write nothing.
     * Otherwise remove its bookmarks on `lnum` (deleting the path when none
     * is left), or the whole path when `lnum` is absent, and write the whole
     * map, pruned by the load, even when no bookmark matched.
     */
    method Delete(path: string, lnum: Option<int>)
      modifies this`disk
      ensures var written := Deleted(old(Loaded(disk, isFile)), path, lnum);
              disk == if written.None? then old(disk) else written
      ensures old(Consistent()) ==> Consistent()
    {
      var items := Load();
      ghost var loaded := items;
      var bookmarks := Get(items, path);
      if bookmarks.Some? {
        if lnum.Some? {
          var rest := WithoutLine(bookmarks.value, lnum.value);
          if |rest| == 0 {
            items := Remove(items, path);
          } else {
            items := Set(items, path, rest);
          }
        } else {
          items := Remove(items, path);
        }
        if old(Consistent()) {
          if disk.Some? {
            LoadKeepsWellFormed(disk.value, isFile);
          }
          DeleteKeepsWellFormed(loaded, path, lnum);
        }
        disk := Some(items);
      }
    }

    /** `clear()`: write an empty array, without loading first. */
    method Clear()
      modifies this`disk
      ensures disk == Some([])
      ensures Loaded(disk, isFile) == []
      ensures Consistent()
    {
      disk := Some([]);
    }
  }
}
