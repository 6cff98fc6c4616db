/**
 * The ordering of the capture listing: `captures.sort_by(|a, b|
 * b.modified.cmp(&a.modified))`, a stable sort on `modified`, newest first
 * (grab-actions/src-tauri/src/main.rs, line 137). The library sort is modelled
 * by a stable insertion sort.
 */
module NewestFirst {
  import opened CaptureTypes

  /** Newest first: no entry is older than one after it. */
  predicate SortedNewestFirst(s: seq<CaptureFile>)
  {
    forall i, j :: 0 <= i < j < |s| ==> s[i].modified >= s[j].modified
  }

  /** The entries of `s` modified in second `t`, in their order in `s`. */
  function WithModified(s: seq<CaptureFile>, t: nat): seq<CaptureFile>
  {
    if s == [] then [] else (if s[0].modified == t then [s[0]] else []) + WithModified(s[1..], t)
  }

  /** Places `c` just before the first entry of `s` that is not newer than it. */
  function Insert(c: CaptureFile, s: seq<CaptureFile>): seq<CaptureFile>
  {
    if s == [] || s[0].modified <= c.modified then [c] + s else [s[0]] + Insert(c, s[1..])
  }

  function Sort(s: seq<CaptureFile>): seq<CaptureFile>
  {
    if s == [] then [] else Insert(s[0], Sort(s[1..]))
  }

  lemma {:induction false} InsertPermutes(c: CaptureFile, s: seq<CaptureFile>)
    ensures multiset(Insert(c, s)) == multiset(s) + multiset{c}
  {
    if s == [] || s[0].modified <= c.modified {
      assert Insert(c, s) == [c] + s;
    } else {
      InsertPermutes(c, s[1..]);
      assert Insert(c, s) == [s[0]] + Insert(c, s[1..]);
      assert s == [s[0]] + s[1..];
    }
  }

  /** Inserting an entry no newer than `m` among entries no newer than `m` keeps them all no newer than `m`. */
  lemma {:induction false} InsertBelow(c: CaptureFile, s: seq<CaptureFile>, m: int)
    requires c.modified <= m
    requires forall k :: 0 <= k < |s| ==> s[k].modified <= m
    ensures forall k :: 0 <= k < |Insert(c, s)| ==> Insert(c, s)[k].modified <= m
  {
    if s == [] || s[0].modified <= c.modified {
      var q := [c] + s;
      assert Insert(c, s) == q;
      forall k | 0 <= k < |q| ensures q[k].modified <= m {
        if k > 0 {
          assert q[k] == s[k - 1];
        }
      }
    } else {
      var r := Insert(c, s[1..]);
      assert forall k :: 0 <= k < |s[1..]| ==> s[1..][k].modified <= m by {
        assert forall k :: 0 <= k < |s[1..]| ==> s[1..][k] == s[k + 1];
      }
      InsertBelow(c, s[1..], m);
      var q := [s[0]] + r;
      assert Insert(c, s) == q;
      forall k | 0 <= k < |q| ensures q[k].modified <= m {
        if k > 0 {
          assert q[k] == r[k - 1];
        }
      }
    }
  }

  lemma {:induction false} InsertKeepsOrder(c: CaptureFile, s: seq<CaptureFile>)
    requires SortedNewestFirst(s)
    ensures SortedNewestFirst(Insert(c, s))
  {
    if s == [] || s[0].modified <= c.modified {
      var q := [c] + s;
      assert Insert(c, s) == q;
      forall i, j | 0 <= i < j < |q| ensures q[i].modified >= q[j].modified {
        assert q[j] == s[j - 1];
        if i > 0 {
          assert q[i] == s[i - 1];
        }
      }
    } else {
      var r := Insert(c, s[1..]);
      assert SortedNewestFirst(s[1..]) by {
        assert forall k :: 0 <= k < |s[1..]| ==> s[1..][k] == s[k + 1];
      }
      InsertKeepsOrder(c, s[1..]);
      assert forall k :: 0 <= k < |s[1..]| ==> s[1..][k].modified <= s[0].modified by {
        assert forall k :: 0 <= k < |s[1..]| ==> s[1..][k] == s[k + 1];
      }
      InsertBelow(c, s[1..], s[0].modified);
      var q := [s[0]] + r;
      assert Insert(c, s) == q;
      forall i, j | 0 <= i < j < |q| ensures q[i].modified >= q[j].modified {
        assert q[j] == r[j - 1];
        if i > 0 {
          assert q[i] == r[i - 1];
        }
      }
    }
  }

  lemma WithModifiedCons(x: CaptureFile, s: seq<CaptureFile>, t: nat)
    ensures WithModified([x] + s, t) == (if x.modified == t then [x] else []) + WithModified(s, t)
  {
    assert ([x] + s)[0] == x && ([x] + s)[1..] == s;
  }

  lemma {:induction false} InsertWithModified(c: CaptureFile, s: seq<CaptureFile>, t: nat)
    ensures WithModified(Insert(c, s), t) == (if c.modified == t then [c] else []) + WithModified(s, t)
  {
    if s == [] || s[0].modified <= c.modified {
      WithModifiedCons(c, s, t);
    } else {
      var r := Insert(c, s[1..]);
      InsertWithModified(c, s[1..], t);
      WithModifiedCons(s[0], r, t);
      WithModifiedCons(s[0], s[1..], t);
      assert [s[0]] + s[1..] == s;
    }
  }

  /** The sorted listing is newest first and holds exactly the entries it was given. */
  lemma {:induction false} SortIsOrderedPermutation(s: seq<CaptureFile>)
    ensures SortedNewestFirst(Sort(s))
    ensures multiset(Sort(s)) == multiset(s)
    ensures |Sort(s)| == |s|
  {
    if s != [] {
      SortIsOrderedPermutation(s[1..]);
      InsertKeepsOrder(s[0], Sort(s[1..]));
      InsertPermutes(s[0], Sort(s[1..]));
      assert s == [s[0]] + s[1..];
      assert |multiset(Sort(s))| == |multiset(s)|;
    }
  }

  /**
   * The sort is stable: entries with the same modification second come out in
   * the order they went in.
   */
  lemma {:induction false} SortIsStable(s: seq<CaptureFile>, t: nat)
    ensures WithModified(Sort(s), t) == WithModified(s, t)
  {
    if s != [] {
      SortIsStable(s[1..], t);
      InsertWithModified(s[0], Sort(s[1..]), t);
    }
  }
}
