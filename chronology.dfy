/** `sorted(txs, key=lambda tx: tx.get("t", ""))`: Python's stable sort of
    the records by timestamp string, used by the chain builder and the audit. */
module Chronology {
  import opened TextOrder
  import opened Records

  /** Records in non-decreasing timestamp order. */
  ghost predicate Sorted(c: seq<Tx>)
  {
    forall i, j :: 0 <= i < j < |c| ==> StrLe(SortKey(c[i]), SortKey(c[j]))
  }

  /** Every record of `c` sorts no later than `t`. */
  ghost predicate AllNoLaterThan(c: seq<Tx>, t: string)
  {
    forall k :: 0 <= k < |c| ==> StrLe(SortKey(c[k]), t)
  }

  /** A sorted sequence followed by a record no earlier than any of it is
      sorted. */
  lemma SortedSnoc(c: seq<Tx>, x: Tx)
    requires Sorted(c) && AllNoLaterThan(c, SortKey(x))
    ensures Sorted(c + [x])
  {
    forall i, j | 0 <= i < j < |c| + 1
      ensures StrLe(SortKey((c + [x])[i]), SortKey((c + [x])[j]))
    {
      if j < |c| { assert (c + [x])[i] == c[i] && (c + [x])[j] == c[j]; }
    }
  }

  /** A bound on every record carries over to any rearrangement with one
      more record that respects it. */
  lemma NoLaterThanByMultiset(r: seq<Tx>, c: seq<Tx>, x: Tx, t: string)
    requires multiset(r) == multiset(c) + multiset{x}
    requires AllNoLaterThan(c, t) && StrLe(SortKey(x), t)
    ensures AllNoLaterThan(r, t)
  {
    forall k | 0 <= k < |r| ensures StrLe(SortKey(r[k]), t) {
      assert r[k] in multiset(r);
      if r[k] != x {
        assert r[k] in multiset(c);
        var i :| 0 <= i < |c| && c[i] == r[k];
      }
    }
  }

  /** Places `x` after every record of the sorted `c` whose key is at most
      `x`'s key: since `x` comes later in the input than all of `c`, equal keys
      keep their input order. */
  function Insert(c: seq<Tx>, x: Tx): (r: seq<Tx>)
    requires Sorted(c)
    ensures |r| == |c| + 1
    decreases |c|
  {
    if c == [] then [x]
    else if StrLe(SortKey(c[|c| - 1]), SortKey(x)) then c + [x]
    else
      assert Sorted(c[..|c| - 1]);
      Insert(c[..|c| - 1], x) + [c[|c| - 1]]
  }

  /** Inserting into a sorted sequence adds exactly that record and keeps
      the sequence sorted. */
  lemma {:induction false} InsertSortedPermutation(c: seq<Tx>, x: Tx)
    requires Sorted(c)
    ensures multiset(Insert(c, x)) == multiset(c) + multiset{x}
    ensures Sorted(Insert(c, x))
    decreases |c|
  {
    if c != [] {
      var init, last := c[..|c| - 1], c[|c| - 1];
      assert c == init + [last];
      assert AllNoLaterThan(init, SortKey(last));
      if StrLe(SortKey(last), SortKey(x)) {
        assert AllNoLaterThan(c, SortKey(x)) by {
          forall i | 0 <= i < |c| ensures StrLe(SortKey(c[i]), SortKey(x)) {
            if i < |c| - 1 { StrLeTrans(SortKey(c[i]), SortKey(last), SortKey(x)); }
          }
        }
        SortedSnoc(c, x);
      } else {
        assert Sorted(init);
        var r' := Insert(init, x);
        assert Insert(c, x) == r' + [last];
        InsertSortedPermutation(init, x);
        StrLeTotal(SortKey(last), SortKey(x));
        NoLaterThanByMultiset(r', init, x, SortKey(last));
        SortedSnoc(r', last);
      }
    }
  }

  /** The stable sort by timestamp. */
  function SortByTime(s: seq<Tx>): (r: seq<Tx>)
    ensures |r| == |s|
    ensures multiset(r) == multiset(s)
    ensures Sorted(r)
    decreases |s|
  {
    if s == [] then []
    else
      var init, x := s[..|s| - 1], s[|s| - 1];
      assert s == init + [x];
      var c := SortByTime(init);
      InsertSortedPermutation(c, x);
      Insert(c, x)
  }

  /** A ledger already in timestamp order is left as it is. */
  lemma {:induction false} SortedUnchanged(s: seq<Tx>)
    requires Sorted(s)
    ensures SortByTime(s) == s
    decreases |s|
  {
    if s != [] {
      var init := s[..|s| - 1];
      assert Sorted(init);
      SortedUnchanged(init);
      assert s == init + [s[|s| - 1]];
    }
  }

  /** A record whose timestamp is no earlier than any other is placed last
      and the others keep their sorted order. */
  lemma AppendLatest(s: seq<Tx>, x: Tx)
    requires AllNoLaterThan(s, SortKey(x))
    ensures SortByTime(s + [x]) == SortByTime(s) + [x]
  {
    assert (s + [x])[..|s|] == s;
    var c := SortByTime(s);
    if c != [] {
      assert c[|c| - 1] in multiset(s);
    }
  }

  /** `s[j]` is the latest-appended among the records with the greatest
      timestamp: no key exceeds its key, and every record appended after it has
      a strictly smaller key. */
  ghost predicate IsLatestMaximum(s: seq<Tx>, j: int)
  {
    && 0 <= j < |s|
    && AllNoLaterThan(s, SortKey(s[j]))
    && forall k :: j < k < |s| ==> !StrLe(SortKey(s[j]), SortKey(s[k]))
  }

  lemma InsertLast(c: seq<Tx>, x: Tx)
    requires Sorted(c)
    ensures Insert(c, x)[|c|] == if c == [] || StrLe(SortKey(c[|c| - 1]), SortKey(x)) then x else c[|c| - 1]
  {
  }

  /** Appending a record whose key is at least the current maximum makes it
      the latest maximum. */
  lemma NewLatestMaximum(init: seq<Tx>, x: Tx, j: int)
    requires IsLatestMaximum(init, j)
    requires StrLe(SortKey(init[j]), SortKey(x))
    ensures IsLatestMaximum(init + [x], |init|)
  {
    var s := init + [x];
    StrLeRefl(SortKey(x));
    forall k | 0 <= k < |s| ensures StrLe(SortKey(s[k]), SortKey(x)) {
      if k < |init| { StrLeTrans(SortKey(init[k]), SortKey(init[j]), SortKey(x)); }
    }
  }

  /** Appending a record with a smaller key keeps the latest maximum. */
  lemma SameLatestMaximum(init: seq<Tx>, x: Tx, j: int)
    requires IsLatestMaximum(init, j)
    requires !StrLe(SortKey(init[j]), SortKey(x))
    ensures IsLatestMaximum(init + [x], j)
  {
    StrLeTotal(SortKey(init[j]), SortKey(x));
  }

  /** The stable sort ends with the latest-appended record of greatest
      timestamp, the record whose `h` the chain builder takes. */
  lemma {:induction false} LastOfSort(s: seq<Tx>)
    requires |s| > 0
    ensures exists j :: IsLatestMaximum(s, j) && SortByTime(s)[|s| - 1] == s[j]
    decreases |s|
  {
    var init, x := s[..|s| - 1], s[|s| - 1];
    assert s == init + [x];
    var c := SortByTime(init);
    assert SortByTime(s) == Insert(c, x);
    InsertLast(c, x);
    if init == [] {
      StrLeRefl(SortKey(x));
      assert IsLatestMaximum(s, 0);
    } else {
      LastOfSort(init);
      var j :| IsLatestMaximum(init, j) && c[|init| - 1] == init[j];
      if StrLe(SortKey(init[j]), SortKey(x)) {
        NewLatestMaximum(init, x, j);
        assert SortByTime(s)[|s| - 1] == s[|s| - 1];
      } else {
        SameLatestMaximum(init, x, j);
        assert SortByTime(s)[|s| - 1] == s[j];
      }
    }
  }

  /** Replacing a record by one with the same timestamp keeps timestamp
      order. */
  lemma SameKeyReplaceKeepsSorted(c: seq<Tx>, k: nat, y: Tx)
    requires Sorted(c) && k < |c| && SortKey(y) == SortKey(c[k])
    ensures Sorted(c[k := y])
  {
    var t := c[k := y];
    forall a, b | 0 <= a < b < |t| ensures StrLe(SortKey(t[a]), SortKey(t[b])) {
      assert SortKey(t[a]) == SortKey(c[a]) && SortKey(t[b]) == SortKey(c[b]);
    }
  }

  /** Deleting a record keeps timestamp order. */
  lemma DeletionKeepsSorted(c: seq<Tx>, k: nat)
    requires Sorted(c) && k < |c|
    ensures Sorted(c[..k] + c[k + 1..])
  {
    var d := c[..k] + c[k + 1..];
    forall a, b | 0 <= a < b < |d| ensures StrLe(SortKey(d[a]), SortKey(d[b])) {
      var a' := if a < k then a else a + 1;
      var b' := if b < k then b else b + 1;
      assert d[a] == c[a'] && d[b] == c[b'];
    }
  }

  /** Two records with the same timestamp are inserted at the same place. */
  lemma {:induction false} InsertSameKey(c: seq<Tx>, x: Tx, y: Tx)
    requires Sorted(c) && SortKey(y) == SortKey(x)
    ensures exists k :: 0 <= k <= |c| && Insert(c, x)[k] == x && Insert(c, y) == Insert(c, x)[k := y]
    decreases |c|
  {
    if c == [] {
      assert Insert(c, x)[0] == x && Insert(c, y) == Insert(c, x)[0 := y];
    } else {
      var init, last := c[..|c| - 1], c[|c| - 1];
      if StrLe(SortKey(last), SortKey(x)) {
        assert Insert(c, x)[|c|] == x && Insert(c, y) == Insert(c, x)[|c| := y];
      } else {
        assert Sorted(init);
        InsertSameKey(init, x, y);
        var k :| 0 <= k <= |init| && Insert(init, x)[k] == x && Insert(init, y) == Insert(init, x)[k := y];
        var r := Insert(init, x);
        assert Insert(c, x) == r + [last] && Insert(c, y) == r[k := y] + [last];
        assert (r + [last])[k] == x && r[k := y] + [last] == (r + [last])[k := y];
      }
    }
  }

  /** Inserting into a sorted sequence in which one record was replaced by
      another with the same timestamp gives the same result with that record
      replaced. */
  lemma {:induction false} InsertReplace(c: seq<Tx>, k: nat, y: Tx, x: Tx)
    requires Sorted(c) && k < |c| && SortKey(y) == SortKey(c[k])
    ensures Sorted(c[k := y])
    ensures exists k' :: 0 <= k' <= |c| && Insert(c, x)[k'] == c[k] && Insert(c[k := y], x) == Insert(c, x)[k' := y]
    decreases |c|
  {
    SameKeyReplaceKeepsSorted(c, k, y);
    var c' := c[k := y];
    var init, last := c[..|c| - 1], c[|c| - 1];
    assert SortKey(c'[|c| - 1]) == SortKey(last);
    if StrLe(SortKey(last), SortKey(x)) {
      assert Insert(c, x) == c + [x] && Insert(c', x) == c' + [x];
      assert (c + [x])[k] == c[k] && c' + [x] == (c + [x])[k := y];
    } else if k == |c| - 1 {
      assert c'[..|c| - 1] == init;
      var r := Insert(init, x);
      assert Insert(c, x) == r + [last] && Insert(c', x) == r + [y];
      assert (r + [last])[|c|] == c[k] && r + [y] == (r + [last])[|c| := y];
    } else {
      assert c'[..|c| - 1] == init[k := y] && c'[|c| - 1] == last;
      assert Sorted(init);
      InsertReplace(init, k, y, x);
      var k'' :| 0 <= k'' <= |init| && Insert(init, x)[k''] == init[k] && Insert(init[k := y], x) == Insert(init, x)[k'' := y];
      var r := Insert(init, x);
      assert Insert(c, x) == r + [last] && Insert(c', x) == r[k'' := y] + [last];
      assert (r + [last])[k''] == c[k] && r[k'' := y] + [last] == (r + [last])[k'' := y];
    }
  }

  /** The stable sort commutes with replacing a record by one with the same
      timestamp: the replacement lands where the original record was. */
  lemma {:induction false} SortReplace(s: seq<Tx>, i: nat, y: Tx)
    requires i < |s| && SortKey(y) == SortKey(s[i])
    ensures exists k :: 0 <= k < |s| && SortByTime(s)[k] == s[i] && SortByTime(s[i := y]) == SortByTime(s)[k := y]
    decreases |s|
  {
    var init, x := s[..|s| - 1], s[|s| - 1];
    var s' := s[i := y];
    var c := SortByTime(init);
    assert SortByTime(s) == Insert(c, x);
    if i == |s| - 1 {
      assert s'[..|s| - 1] == init && s'[|s| - 1] == y;
      assert SortByTime(s') == Insert(c, y);
      InsertSameKey(c, x, y);
    } else {
      assert s'[..|s| - 1] == init[i := y] && s'[|s| - 1] == x;
      SortReplace(init, i, y);
      var k0 :| 0 <= k0 < |init| && c[k0] == init[i] && SortByTime(init[i := y]) == c[k0 := y];
      assert SortByTime(s') == Insert(c[k0 := y], x);
      InsertReplace(c, k0, y, x);
      var k' :| 0 <= k' <= |c| && Insert(c, x)[k'] == c[k0] && Insert(c[k0 := y], x) == Insert(c, x)[k' := y];
      assert SortByTime(s)[k'] == s[i] && SortByTime(s') == SortByTime(s)[k' := y];
    }
  }

  /** Inserting a record no earlier than any other appends it. */
  lemma InsertLatest(c: seq<Tx>, x: Tx)
    requires Sorted(c) && AllNoLaterThan(c, SortKey(x))
    ensures Insert(c, x) == c + [x]
  {
  }

  /** Deleting a position before the last of `r + [last]`. */
  lemma DeleteBeforeLast(r: seq<Tx>, last: Tx, k: nat)
    requires k < |r|
    ensures (r + [last])[..k] + (r + [last])[k + 1..] == r[..k] + r[k + 1..] + [last]
  {
    assert (r + [last])[..k] == r[..k];
    assert (r + [last])[k + 1..] == r[k + 1..] + [last];
  }

  /** Deleting the last position of `r + [last]`. */
  lemma DeleteLast(r: seq<Tx>, last: Tx)
    ensures (r + [last])[..|r|] + (r + [last])[|r| + 1..] == r
  {
    assert (r + [last])[..|r|] == r;
  }

  /** The inserted record can be taken out again. */
  lemma {:induction false} InsertTakenOut(c: seq<Tx>, x: Tx)
    requires Sorted(c)
    ensures exists k :: 0 <= k <= |c| && Insert(c, x)[k] == x && Insert(c, x)[..k] + Insert(c, x)[k + 1..] == c
    decreases |c|
  {
    if c == [] {
      assert Insert(c, x)[0] == x && Insert(c, x)[..0] + Insert(c, x)[1..] == c;
    } else {
      var init, last := c[..|c| - 1], c[|c| - 1];
      if StrLe(SortKey(last), SortKey(x)) {
        assert Insert(c, x) == c + [x];
        DeleteLast(c, x);
        assert (c + [x])[|c|] == x;
      } else {
        assert Sorted(init);
        InsertTakenOut(init, x);
        var r := Insert(init, x);
        var k :| 0 <= k <= |init| && r[k] == x && r[..k] + r[k + 1..] == init;
        assert Insert(c, x) == r + [last];
        DeleteBeforeLast(r, last, k);
        assert (r + [last])[k] == x;
        assert init + [last] == c;
      }
    }
  }

  /** `InsertDelete` when the deleted record is the last one. */
  lemma InsertDeleteLast(c: seq<Tx>, x: Tx)
    requires Sorted(c) && |c| > 0
    ensures Sorted(c[..|c| - 1])
    ensures exists k' ::
      && 0 <= k' <= |c| && Insert(c, x)[k'] == c[|c| - 1]
      && Insert(c[..|c| - 1], x) == Insert(c, x)[..k'] + Insert(c, x)[k' + 1..]
  {
    var init, last := c[..|c| - 1], c[|c| - 1];
    assert Sorted(init);
    assert c == init + [last];
    if StrLe(SortKey(last), SortKey(x)) {
      assert AllNoLaterThan(init, SortKey(x)) by {
        forall j | 0 <= j < |init| ensures StrLe(SortKey(init[j]), SortKey(x)) {
          StrLeTrans(SortKey(init[j]), SortKey(last), SortKey(x));
        }
      }
      InsertLatest(init, x);
      assert Insert(c, x) == c + [x];
      DeleteBeforeLast(c, x, |init|);
      assert (c + [x])[|init|] == last;
      assert c[..|init|] + c[|init| + 1..] == init;
    } else {
      var r := Insert(init, x);
      assert Insert(c, x) == r + [last];
      DeleteLast(r, last);
      assert (r + [last])[|r|] == last;
    }
  }

  /** Inserting into a sorted sequence from which one record was deleted
      gives the same result with that record deleted. */
  lemma {:induction false} InsertDelete(c: seq<Tx>, k: nat, x: Tx)
    requires Sorted(c) && k < |c|
    ensures Sorted(c[..k] + c[k + 1..])
    ensures exists k' ::
      && 0 <= k' <= |c| && Insert(c, x)[k'] == c[k]
      && Insert(c[..k] + c[k + 1..], x) == Insert(c, x)[..k'] + Insert(c, x)[k' + 1..]
    decreases |c|
  {
    DeletionKeepsSorted(c, k);
    if k == |c| - 1 {
      assert c[..k] + c[k + 1..] == c[..|c| - 1];
      InsertDeleteLast(c, x);
    } else {
      var init, last := c[..|c| - 1], c[|c| - 1];
      assert c == init + [last];
      var d := c[..k] + c[k + 1..];
      var dinit := init[..k] + init[k + 1..];
      DeleteBeforeLast(init, last, k);
      assert d == dinit + [last];
      assert Sorted(init);
      if StrLe(SortKey(last), SortKey(x)) {
        assert Insert(c, x) == c + [x] && Insert(d, x) == d + [x];
        DeleteBeforeLast(c, x, k);
        assert (c + [x])[k] == c[k];
      } else {
        InsertDelete(init, k, x);
        var k'' :| && 0 <= k'' <= |init| && Insert(init, x)[k''] == init[k]
                   && Insert(dinit, x) == Insert(init, x)[..k''] + Insert(init, x)[k'' + 1..];
        var r := Insert(init, x);
        assert Insert(c, x) == r + [last] && Insert(d, x) == Insert(dinit, x) + [last];
        DeleteBeforeLast(r, last, k'');
        assert (r + [last])[k''] == c[k];
      }
    }
  }

  /** Sorting a ledger with one more record inserts it into the sorted rest. */
  lemma SortSnoc(init: seq<Tx>, x: Tx)
    ensures SortByTime(init + [x]) == Insert(SortByTime(init), x)
  {
    assert (init + [x])[..|init|] == init;
  }

  /** `SortDelete` for the last record. */
  lemma SortDeleteLast(s: seq<Tx>)
    requires |s| > 0
    ensures exists k ::
      && 0 <= k < |s| && SortByTime(s)[k] == s[|s| - 1]
      && SortByTime(s[..|s| - 1]) == SortByTime(s)[..k] + SortByTime(s)[k + 1..]
  {
    var init, x := s[..|s| - 1], s[|s| - 1];
    var c := SortByTime(init);
    assert s == init + [x];
    SortSnoc(init, x);
    InsertTakenOut(c, x);
    var k :| 0 <= k <= |c| && Insert(c, x)[k] == x && Insert(c, x)[..k] + Insert(c, x)[k + 1..] == c;
    assert SortByTime(s)[k] == s[|s| - 1];
  }

  /** The stable sort commutes with deleting a record: the sorted ledger
      loses exactly the position the record sorted to. */
  lemma {:induction false} SortDelete(s: seq<Tx>, i: nat)
    requires i < |s|
    ensures exists k ::
      && 0 <= k < |s| && SortByTime(s)[k] == s[i]
      && SortByTime(s[..i] + s[i + 1..]) == SortByTime(s)[..k] + SortByTime(s)[k + 1..]
    decreases |s|
  {
    if i == |s| - 1 {
      assert s[..i] + s[i + 1..] == s[..|s| - 1];
      SortDeleteLast(s);
    } else {
      var init, x := s[..|s| - 1], s[|s| - 1];
      var c := SortByTime(init);
      var dinit := init[..i] + init[i + 1..];
      assert s == init + [x];
      SortSnoc(init, x);
      DeleteBeforeLast(init, x, i);
      SortSnoc(dinit, x);
      SortDelete(init, i);
      var k0 :| && 0 <= k0 < |init| && c[k0] == init[i]
                && SortByTime(dinit) == c[..k0] + c[k0 + 1..];
      InsertDelete(c, k0, x);
      var k' :| && 0 <= k' <= |c| && Insert(c, x)[k'] == c[k0]
                && Insert(c[..k0] + c[k0 + 1..], x) == Insert(c, x)[..k'] + Insert(c, x)[k' + 1..];
      assert SortByTime(s)[k'] == s[i];
    }
  }
}
