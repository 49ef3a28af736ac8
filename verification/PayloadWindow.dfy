/** The largest keys of a map, which is what a bounded ordered map keeps. */
module PayloadWindow {
  import opened Sets
  import opened Ssz

  type Payloads = map<nat, ExecutionPayload>

  function Above(s: set<nat>, k: nat): set<nat> {
    set j | j in s && j > k
  }

  /** The `n` largest elements of a set: those with fewer than `n` above them. */
  function TopKeys(s: set<nat>, n: nat): set<nat> {
    set k | k in s && |Above(s, k)| < n
  }

  /** A map restricted to its `n` largest keys. */
  function Newest(all: Payloads, n: nat): Payloads {
    map k | k in TopKeys(all.Keys, n) :: all[k]
  }

  lemma MinExists(s: set<nat>) returns (k: nat)
    requires s != {}
    ensures k in s && forall j :: j in s ==> k <= j
  {
    k :| k in s;
    if s - {k} != {} {
      var m := MinExists(s - {k});
      assert s == (s - {k}) + {k};
      if m < k {
        k := m;
      }
    } else {
      assert s == {k};
    }
  }

  function MinKey(s: set<nat>): (k: nat)
    requires s != {}
    ensures k in s && forall j :: j in s ==> k <= j
  {
    assert exists k :: k in s && forall j :: j in s ==> k <= j by {
      var _ := MinExists(s);
    }
    var k :| k in s && forall j :: j in s ==> k <= j;
    k
  }

  lemma MaxExists(s: set<nat>) returns (k: nat)
    requires s != {}
    ensures k in s && forall j :: j in s ==> j <= k
  {
    k :| k in s;
    if s - {k} != {} {
      var m := MaxExists(s - {k});
      assert s == (s - {k}) + {k};
      if m > k {
        k := m;
      }
    } else {
      assert s == {k};
    }
  }

  function MaxKey(s: set<nat>): (k: nat)
    requires s != {}
    ensures k in s && forall j :: j in s ==> j <= k
  {
    assert exists k :: k in s && forall j :: j in s ==> j <= k by {
      var _ := MaxExists(s);
    }
    var k :| k in s && forall j :: j in s ==> j <= k;
    k
  }

  /** There are `n` largest keys, or all of them when there are fewer. */
  lemma {:induction false} TopSize(s: set<nat>, n: nat)
    ensures |TopKeys(s, n)| == if |s| < n then |s| else n
  {
    if |s| <= n {
      forall k | k in s
        ensures |Above(s, k)| < n
      {
        SubsetSize(Above(s, k), s - {k});
      }
      assert TopKeys(s, n) == s;
    } else {
      var m := MinKey(s);
      assert Above(s, m) == s - {m};
      forall k | k in s - {m}
        ensures Above(s, k) == Above(s - {m}, k)
      {
      }
      assert TopKeys(s, n) == TopKeys(s - {m}, n);
      TopSize(s - {m}, n);
    }
  }

  /*** A window on an unbounded map ***/

  /** `window` agrees with `all` and still has its `n` largest keys. */
  ghost predicate Keeps(window: Payloads, all: Payloads, n: nat) {
    && (forall k :: k in window ==> k in all && window[k] == all[k])
    && TopKeys(all.Keys, n) <= window.Keys
  }

  /** Inserting keeps the window, even for a number that was dropped before. */
  lemma InsertKeeps(window: Payloads, all: Payloads, n: nat, k: nat, p: ExecutionPayload)
    requires Keeps(window, all, n)
    ensures Keeps(window[k := p], all[k := p], n)
  {
    var more := all[k := p];
    forall j | j in TopKeys(more.Keys, n)
      ensures j in window[k := p]
    {
      if j != k {
        SubsetSize(Above(all.Keys, j), Above(more.Keys, j));
        assert j in TopKeys(all.Keys, n);
      }
    }
  }

  /** Dropping the smallest key of an overfull window keeps it. */
  lemma PopKeeps(window: Payloads, all: Payloads, n: nat)
    requires Keeps(window, all, n) && |window| > n
    ensures Keeps(window - {MinKey(window.Keys)}, all, n)
  {
    var m := MinKey(window.Keys);
    SubsetSize(window.Keys - {m}, Above(all.Keys, m));
  }

  /** A window that is not overfull is exactly the newest part. */
  lemma TrimmedIsNewest(window: Payloads, all: Payloads, n: nat)
    requires Keeps(window, all, n) && |window| <= n
    ensures window == Newest(all, n)
  {
    TopSize(all.Keys, n);
    SubsetSize(window.Keys, all.Keys);
    var top := TopKeys(all.Keys, n);
    if k :| k in window && k !in top {
      SubsetSize(top + {k}, window.Keys);
      SubsetSize(top + {k}, all.Keys);
      assert false;
    }
    assert window.Keys == top;
  }

  /** The largest key of a window on a non-empty map is the largest of the map. */
  lemma MaxAgrees(window: Payloads, all: Payloads, n: nat)
    requires Keeps(window, all, n) && n > 0 && all.Keys != {}
    ensures window.Keys != {} && MaxKey(window.Keys) == MaxKey(all.Keys)
    ensures window[MaxKey(window.Keys)] == all[MaxKey(all.Keys)]
  {
    var k := MaxKey(all.Keys);
    assert Above(all.Keys, k) == {};
    assert k in TopKeys(all.Keys, n);
  }
}
