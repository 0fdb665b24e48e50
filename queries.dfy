/** The read-only queries of `app.py`: all records in timestamp order, the
    records involving one person, and a person's balance. A record that lacks a key the
    query reads raises `KeyError` in the source; here that is `None`. */
module Queries {
  import opened Common
  import opened TextOrder
  import opened Records
  import opened Chronology

  /** `tx["p1"] == person or tx["p2"] == person`, with `or` short-circuiting:
      `None` when a key it reads is absent. */
  function Involves(tx: Tx, person: string): (r: Option<bool>)
    ensures r.None? <==> tx.p1.None? || (tx.p1 != Some(person) && tx.p2.None?)
    ensures r.Some? ==> (r.value <==> tx.p1 == Some(person) || tx.p2 == Some(person))
  {
    if tx.p1.None? then None
    else if tx.p1.value == person then Some(true)
    else if tx.p2.None? then None
    else Some(tx.p2.value == person)
  }

  /** The person appears as sender or recipient. */
  predicate InvolvedIn(tx: Tx, person: string)
  {
    tx.p1 == Some(person) || tx.p2 == Some(person)
  }

  /** The list comprehension keeping the records that involve `person`, in
      order; `None` as soon as one record cannot be tested. */
  function Filter(c: seq<Tx>, person: string): (r: Option<seq<Tx>>)
    ensures r.None? <==> exists i :: 0 <= i < |c| && Involves(c[i], person).None?
    ensures r.Some? ==> forall tx :: multiset(r.value)[tx] == if InvolvedIn(tx, person) then multiset(c)[tx] else 0
    decreases |c|
  {
    if c == [] then Some([])
    else
      var init, last := c[..|c| - 1], c[|c| - 1];
      assert c == init + [last];
      var rest := Filter(init, person);
      var test := Involves(last, person);
      if rest.None? || test.None? then None
      else if test.value then Some(rest.value + [last])
      else rest
  }

  /** `m` lists strictly increasing positions of `c` that hold `r`. */
  ghost predicate Embeds(r: seq<Tx>, c: seq<Tx>, m: seq<nat>)
  {
    && |m| == |r|
    && (forall k :: 0 <= k < |m| ==> m[k] < |c| && r[k] == c[m[k]])
    && (forall k, l :: 0 <= k < l < |m| ==> m[k] < m[l])
  }

  /** Filtering keeps the records' relative order. */
  lemma {:induction false} FilterIsSubsequence(c: seq<Tx>, person: string)
    requires Filter(c, person).Some?
    ensures exists m: seq<nat> :: Embeds(Filter(c, person).value, c, m)
    decreases |c|
  {
    var r := Filter(c, person).value;
    if c == [] {
      assert Embeds(r, c, []);
    } else {
      var init := c[..|c| - 1];
      FilterIsSubsequence(init, person);
      var r' := Filter(init, person).value;
      var m': seq<nat> :| Embeds(r', init, m');
      if r == r' {
        assert Embeds(r, c, m');
      } else {
        assert Embeds(r, c, m' + [|c| - 1]);
      }
    }
  }

  /** A subsequence of records in timestamp order is in timestamp order. */
  lemma FilterKeepsSorted(c: seq<Tx>, person: string)
    requires Sorted(c) && Filter(c, person).Some?
    ensures Sorted(Filter(c, person).value)
  {
    var r := Filter(c, person).value;
    FilterIsSubsequence(c, person);
    var m: seq<nat> :| Embeds(r, c, m);
    forall k, l | 0 <= k < l < |r| ensures StrLe(SortKey(r[k]), SortKey(r[l])) {
      assert r[k] == c[m[k]] && r[l] == c[m[l]];
    }
  }

  /** Every record has a timestamp: `sorted(key=lambda tx: tx["t"])` does not
      raise. */
  predicate AllTimed(txs: seq<Tx>)
  {
    forall i :: 0 <= i < |txs| ==> txs[i].t.Some?
  }

  /** `list_transactions`: every record, in stable timestamp order; `None`
      when a record lacks `t`, where `tx["t"]` raises. */
  function ListTransactions(txs: seq<Tx>): (r: Option<seq<Tx>>)
    ensures r.Some? <==> AllTimed(txs)
    ensures r.Some? ==> multiset(r.value) == multiset(txs) && Sorted(r.value)
  {
    if AllTimed(txs) then Some(SortByTime(txs)) else None
  }

  /** `list_transactions_for_person`: the records involving `person`, in
      stable timestamp order. */
  function TransactionsFor(txs: seq<Tx>, person: string): (r: Option<seq<Tx>>)
    ensures r.Some? ==> AllTimed(txs)
    ensures AllTimed(txs) ==> (r.None? <==> exists i :: 0 <= i < |txs| && Involves(txs[i], person).None?)
    ensures r.Some? ==> forall tx :: multiset(r.value)[tx] == if InvolvedIn(tx, person) then multiset(txs)[tx] else 0
    ensures r.Some? ==> Sorted(r.value)
  {
    if !AllTimed(txs) then None
    else
      var c := SortByTime(txs);
      var r := Filter(c, person);
      if r.Some? then
        FilterKeepsSorted(c, person);
        assert forall i :: 0 <= i < |txs| ==> Involves(txs[i], person).Some? by {
          forall i | 0 <= i < |txs| ensures Involves(txs[i], person).Some? {
            assert txs[i] in multiset(c);
            var j :| 0 <= j < |c| && c[j] == txs[i];
          }
        }
        r
      else
        assert exists i :: 0 <= i < |txs| && Involves(txs[i], person).None? by {
          var i :| 0 <= i < |c| && Involves(c[i], person).None?;
          assert c[i] in multiset(txs);
          var j :| 0 <= j < |txs| && txs[j] == c[i];
        }
        r
  }

  /** Which key of a record names the person a sum is about. */
  datatype Side = Sender | Recipient

  function Party(tx: Tx, side: Side): Option<string>
  {
    if side == Sender then tx.p1 else tx.p2
  }

  /** Addition that propagates a raised `KeyError`. */
  function Plus(x: Option<int>, y: Option<int>): (r: Option<int>)
    ensures r.Some? <==> x.Some? && y.Some?
    ensures r.Some? ==> r.value == x.value + y.value
  {
    if x.Some? && y.Some? then Some(x.value + y.value) else None
  }

  /** What one record adds to the sum about `person` on `side`. */
  function Contribution(tx: Tx, person: string, side: Side): (r: Option<int>)
    ensures r.None? <==> Party(tx, side) == Some(person) && tx.a.None?
    ensures r.Some? ==> r.value == if Party(tx, side) == Some(person) then tx.a.value else 0
  {
    if Party(tx, side) != Some(person) then Some(0)
    else if tx.a.Some? then Some(tx.a.value)
    else None
  }

  /** `sum(tx["a"] for tx in txs if tx.get(key) == person)`; `None` when a
      matching record has no amount. */
  function Total(txs: seq<Tx>, person: string, side: Side): (r: Option<int>)
    ensures r.None? <==> exists i :: 0 <= i < |txs| && Party(txs[i], side) == Some(person) && txs[i].a.None?
    decreases |txs|
  {
    if txs == [] then Some(0)
    else
      var init, last := txs[..|txs| - 1], txs[|txs| - 1];
      assert txs == init + [last];
      Plus(Total(init, person, side), Contribution(last, person, side))
  }

  /** `balance`: what `person` received minus what they sent. */
  function Balance(txs: seq<Tx>, person: string): (r: Option<int>)
    ensures r.None? <==> exists i :: 0 <= i < |txs| && InvolvedIn(txs[i], person) && txs[i].a.None?
  {
    var incoming := Total(txs, person, Recipient);
    var outgoing := Total(txs, person, Sender);
    assert (incoming.None? || outgoing.None?) ==>
      exists i :: 0 <= i < |txs| && InvolvedIn(txs[i], person) && txs[i].a.None?;
    if incoming.Some? && outgoing.Some? then Some(incoming.value - outgoing.value) else None
  }

  /** Sums over a concatenation add up. */
  lemma {:induction false} TotalOfConcat(s: seq<Tx>, t: seq<Tx>, person: string, side: Side)
    ensures Total(s + t, person, side) == Plus(Total(s, person, side), Total(t, person, side))
    decreases |t|
  {
    if t == [] {
      assert s + t == s;
    } else {
      var init, last := t[..|t| - 1], t[|t| - 1];
      assert (s + t)[..|s + t| - 1] == s + init;
      TotalOfConcat(s, init, person, side);
    }
  }

  /** The balance over a concatenation is the sum of the balances. */
  lemma BalanceOfConcat(s: seq<Tx>, t: seq<Tx>, person: string)
    ensures Balance(s + t, person) == Plus(Balance(s, person), Balance(t, person))
  {
    TotalOfConcat(s, t, person, Recipient);
    TotalOfConcat(s, t, person, Sender);
  }

  /** Taking one record out of a sequence takes it out of its multiset. */
  lemma MultisetWithout(s: seq<Tx>, k: nat)
    requires k < |s|
    ensures multiset(s[..k] + s[k + 1..]) == multiset(s) - multiset{s[k]}
  {
    assert s == s[..k] + [s[k]] + s[k + 1..];
  }

  /** The sum over a sequence is the sum without one record plus that
      record's contribution. */
  lemma TotalWithout(s: seq<Tx>, k: nat, person: string, side: Side)
    requires k < |s|
    ensures Total(s, person, side) == Plus(Total(s[..k] + s[k + 1..], person, side), Contribution(s[k], person, side))
  {
    var before, x, after := s[..k], s[k], s[k + 1..];
    var upTo := before + [x];
    assert s == upTo + after;
    assert s[..k] + s[k + 1..] == before + after;
    assert Total(upTo, person, side) == Plus(Total(before, person, side), Contribution(x, person, side)) by {
      assert upTo[..|upTo| - 1] == before;
    }
    TotalOfConcat(upTo, after, person, side);
    TotalOfConcat(before, after, person, side);
  }

  /** Sums do not depend on the order the records are stored in. */
  lemma {:induction false} TotalIgnoresOrder(s: seq<Tx>, t: seq<Tx>, person: string, side: Side)
    requires multiset(s) == multiset(t)
    ensures Total(s, person, side) == Total(t, person, side)
    decreases |t|
  {
    if t == [] {
      assert s == [] by { assert |s| == |multiset(s)|; }
    } else {
      var n := |t| - 1;
      assert t[n] in multiset(s);
      var k :| 0 <= k < |s| && s[k] == t[n];
      MultisetWithout(s, k);
      MultisetWithout(t, n);
      assert t[..n] + t[n + 1..] == t[..n];
      TotalIgnoresOrder(s[..k] + s[k + 1..], t[..n], person, side);
      TotalWithout(s, k, person, side);
    }
  }

  /** The balance does not depend on the order the records are stored in:
      the audit's sort does not change it. */
  lemma BalanceIgnoresOrder(s: seq<Tx>, t: seq<Tx>, person: string)
    requires multiset(s) == multiset(t)
    ensures Balance(s, person) == Balance(t, person)
  {
    TotalIgnoresOrder(s, t, person, Recipient);
    TotalIgnoresOrder(s, t, person, Sender);
  }

  /** Appending a transfer of `v` from `a` to `b != a` moves `v` from `a`'s
      balance to `b`'s and leaves everyone else's unchanged; a transfer to
      oneself changes nothing. */
  lemma TransferMovesAmount(txs: seq<Tx>, x: Tx, a: string, b: string, v: Amount, other: string)
    requires x.p1 == Some(a) && x.p2 == Some(b) && x.a == Some(v)
    requires other != a && other != b
    ensures a != b ==> Balance(txs + [x], a) == Plus(Balance(txs, a), Some(-v))
    ensures a != b ==> Balance(txs + [x], b) == Plus(Balance(txs, b), Some(v))
    ensures a == b ==> Balance(txs + [x], a) == Balance(txs, a)
    ensures Balance(txs + [x], other) == Balance(txs, other)
  {
    var t := txs + [x];
    assert t[..|t| - 1] == txs;
  }
}
