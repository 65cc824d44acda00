/** One bookmark and the filter the store applies to a file's list of them. */
module Bookmark {
  import opened Options

  /** A bookmark: its line number in the file and an optional note. */
  datatype Record = Record(lnum: int, annotation: Option<string>)

  /** Within one file, no two bookmarks sit on the same line. */
  ghost predicate UniqueLines(bs: seq<Record>) {
    forall i, j :: 0 <= i < j < |bs| ==> bs[i].lnum != bs[j].lnum
  }

  /** Some bookmark of the list sits on line `lnum`. */
  ghost predicate HasLine(bs: seq<Record>, lnum: int) {
    exists i :: 0 <= i < |bs| && bs[i].lnum == lnum
  }

  /**
   * `bs.filter(b => b.lnum != lnum)`: the bookmarks on other lines, in their
   * order. Nothing on `lnum` is left, nothing else is lost, nothing is added.
   */
  function WithoutLine(bs: seq<Record>, lnum: int): (r: seq<Record>)
    ensures |r| <= |bs|
    ensures forall i :: 0 <= i < |r| ==> r[i].lnum != lnum
    ensures forall b :: b in r <==> b in bs && b.lnum != lnum
    ensures !HasLine(bs, lnum) ==> r == bs
  {
    if bs == [] then []
    else if bs[0].lnum != lnum then [bs[0]] + WithoutLine(bs[1..], lnum)
    else WithoutLine(bs[1..], lnum)
  }

  /** The filter works element by element: filtering a concatenation filters each part, in order. */
  lemma {:induction false} WithoutLineAppend(a: seq<Record>, b: seq<Record>, lnum: int)
    ensures WithoutLine(a + b, lnum) == WithoutLine(a, lnum) + WithoutLine(b, lnum)
  {
    if a == [] {
      assert a + b == b;
    } else {
      assert (a + b)[0] == a[0];
      assert (a + b)[1..] == a[1..] + b;
      WithoutLineAppend(a[1..], b, lnum);
    }
  }

  /** A single record survives the filter exactly when it is on another line. */
  lemma {:induction false} WithoutLineSingle(b: Record, lnum: int)
    ensures WithoutLine([b], lnum) == if b.lnum != lnum then [b] else []
  {
    assert [b][1..] == [];
  }

  /** Filtering keeps the lines of a list unique. */
  lemma {:induction false} WithoutLineUnique(bs: seq<Record>, lnum: int)
    requires UniqueLines(bs)
    ensures UniqueLines(WithoutLine(bs, lnum))
  {
    if bs != [] {
      var tail := bs[1..];
      assert UniqueLines(tail);
      WithoutLineUnique(tail, lnum);
      var rest := WithoutLine(tail, lnum);
      if bs[0].lnum != lnum {
        forall b | b in rest ensures b.lnum != bs[0].lnum {
          assert b in tail;
        }
      }
    }
  }

  /** Dropping a line and appending a record on it keeps the lines of a list unique. */
  lemma {:induction false} ReplaceLineUnique(bs: seq<Record>, data: Record)
    requires UniqueLines(bs)
    ensures UniqueLines(WithoutLine(bs, data.lnum) + [data])
  {
    var kept := WithoutLine(bs, data.lnum);
    WithoutLineUnique(bs, data.lnum);
    var r := kept + [data];
    forall i, j | 0 <= i < j < |r| ensures r[i].lnum != r[j].lnum {
      if j == |kept| {
        assert r[i] == kept[i] && r[j] == data;
      } else {
        assert r[i] == kept[i] && r[j] == kept[j];
      }
    }
  }

  /** In a list with unique lines, dropping a line that is present shortens it by exactly one. */
  lemma {:induction false} WithoutPresentLine(bs: seq<Record>, lnum: int)
    requires UniqueLines(bs)
    requires HasLine(bs, lnum)
    ensures |WithoutLine(bs, lnum)| == |bs| - 1
  {
    var tail := bs[1..];
    assert UniqueLines(tail);
    if bs[0].lnum == lnum {
      assert !HasLine(tail, lnum) by {
        forall i | 0 <= i < |tail| ensures tail[i].lnum != lnum {
          assert tail[i] == bs[i + 1];
        }
      }
    } else {
      var i :| 0 <= i < |bs| && bs[i].lnum == lnum;
      assert tail[i - 1].lnum == lnum;
      WithoutPresentLine(tail, lnum);
    }
  }
}
