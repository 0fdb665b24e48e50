/** What the audit detects and what it lets through: tampering with one
    record, deleting a record, appending a record, and the blind spot of the
    unescaped `|` delimiter. The hash is assumed collision-free here and only
    here. */
module Integrity {
  import opened Common
  import opened TextOrder
  import opened Records
  import opened Chronology
  import opened Chain
  import opened Audit

  /** A record that has a fingerprint and the four fields it is computed
      from. */
  predicate Full(tx: Tx)
  {
    tx.h.Some? && Complete(tx)
  }

  lemma IntactRecordsAreFull(p: Primitives, keys: map<string, string>, c: seq<Tx>)
    requires Intact(p, keys, c)
    ensures forall i :: 0 <= i < |c| ==> Full(c[i])
  {
    forall i | 0 <= i < |c| ensures Full(c[i]) {
      assert Outcomes(p, keys, c)[i].Accepted?;
    }
  }

  /** Replacing a full record by a full record with the same fingerprint
      leaves the running fingerprint of every prefix unchanged, whatever the
      other records are. */
  lemma {:induction false} PrefixPrevAgree(c: seq<Tx>, i: nat, y: Tx, j: nat)
    requires i < |c| && j <= |c|
    requires Full(c[i]) && Full(y) && y.h == c[i].h
    ensures RunningPrev(c[i := y][..j]) == RunningPrev(c[..j])
    decreases j
  {
    if j > 0 {
      var c' := c[i := y];
      assert c'[..j][..j - 1] == c'[..j - 1];
      assert c[..j][..j - 1] == c[..j - 1];
      PrefixPrevAgree(c, i, y, j - 1);
    }
  }

  /** Replacing a full record by a full record with the same fingerprint
      leaves the verdict on every other record unchanged. */
  lemma ReplaceKeepsOthers(p: Primitives, keys: map<string, string>, c: seq<Tx>, i: nat, y: Tx)
    requires i < |c|
    requires Full(c[i]) && Full(y) && y.h == c[i].h
    ensures RunningPrev(c[i := y][..i]) == RunningPrev(c[..i])
    ensures forall j :: 0 <= j < |c| && j != i ==> Outcomes(p, keys, c[i := y])[j] == Outcomes(p, keys, c)[j]
  {
    var c' := c[i := y];
    PrefixPrevAgree(c, i, y, i);
    forall j | 0 <= j < |c| && j != i
      ensures Outcomes(p, keys, c')[j] == Outcomes(p, keys, c)[j]
    {
      PrefixPrevAgree(c, i, y, j);
      SamePrevSameOutcome(p, keys, c', c, j);
    }
  }

  /** A record examined against the same running fingerprint gets the same
      verdict. */
  lemma SamePrevSameOutcome(p: Primitives, keys: map<string, string>, c: seq<Tx>, c': seq<Tx>, j: nat)
    requires j < |c| && j < |c'| && c[j] == c'[j]
    requires RunningPrev(c[..j]) == RunningPrev(c'[..j])
    ensures Outcomes(p, keys, c)[j] == Outcomes(p, keys, c')[j]
  {
  }

  /** Different messages on the same predecessor give different
      fingerprints. */
  lemma DistinctMessagesDistinctHashes(p: Primitives, prev: string, x: Tx, y: Tx)
    requires HashInjective(p)
    requires Complete(x) && Complete(y)
    requires MessageOf(p, x) != MessageOf(p, y)
    ensures Recomputed(p, prev, x) != Recomputed(p, prev, y)
  {
    HashInputCancels(MessageOf(p, x), MessageOf(p, y), prev, prev);
  }

  /** The same message on different predecessors gives different
      fingerprints. */
  lemma DistinctPrevsDistinctHashes(p: Primitives, prev: string, prev': string, x: Tx)
    requires HashInjective(p)
    requires Complete(x) && prev != prev'
    ensures Recomputed(p, prev, x) != Recomputed(p, prev', x)
  {
    HashInputCancels(MessageOf(p, x), MessageOf(p, x), prev, prev');
  }

  /** Tampering with the signed fields of one record of an intact chain,
      keeping its stored fingerprint, makes exactly that record fail: the
      audit carries the stored fingerprint forward, so its successors still
      pass. */
  lemma TamperFlagsOnlyThatRecord(p: Primitives, keys: map<string, string>, c: seq<Tx>, i: nat, y: Tx, c': seq<Tx>)
    requires HashInjective(p)
    requires Intact(p, keys, c)
    requires i < |c| && c' == c[i := y]
    requires Full(y) && y.h == c[i].h
    requires Complete(c[i]) && MessageOf(p, y) != MessageOf(p, c[i])
    ensures forall j :: 0 <= j < |c'| ==> (Outcomes(p, keys, c')[j].Accepted? <==> j != i)
  {
    IntactRecordsAreFull(p, keys, c);
    ReplaceKeepsOthers(p, keys, c, i, y);
    var prev := RunningPrev(c[..i]);
    assert Outcomes(p, keys, c)[i].Accepted?;
    DistinctMessagesDistinctHashes(p, prev, y, c[i]);
    assert c'[i] == y;
    forall j | 0 <= j < |c'| ensures Outcomes(p, keys, c')[j].Accepted? <==> j != i {
      if j != i {
        assert Outcomes(p, keys, c)[j].Accepted?;
      }
    }
  }

  /** Deleting a record other than the chronologically last one from an
      intact chain makes exactly its successor fail, provided the deleted
      record's fingerprint differs from the one it was chained on. */
  lemma DeletionFlagsOnlySuccessor(p: Primitives, keys: map<string, string>, c: seq<Tx>, i: nat)
    requires HashInjective(p)
    requires Intact(p, keys, c)
    requires i + 1 < |c|
    requires c[i].h != Some(StoredPrev(c, i))
    ensures var d := c[..i] + c[i + 1..];
      forall j :: 0 <= j < |d| ==> (Outcomes(p, keys, d)[j].Accepted? <==> j != i)
  {
    var d := c[..i] + c[i + 1..];
    IntactRecordsAreFull(p, keys, c);
    forall j | 0 <= j < |d|
      ensures Outcomes(p, keys, d)[j].Accepted? <==> j != i
    {
      if j < i {
        assert d[..j] == c[..j];
        assert Outcomes(p, keys, c)[j].Accepted?;
      } else if j == i {
        assert d[..i] == c[..i];
        assert Outcomes(p, keys, c)[i + 1].Accepted?;
        RunningPrevAfterFull(c, i + 1);
        var q := RunningPrev(c[..i]);
        if i > 0 { RunningPrevAfterFull(c, i); }
        DistinctPrevsDistinctHashes(p, q, c[i].h.value, c[i + 1]);
      } else {
        RunningPrevAfterFull(d, j);
        RunningPrevAfterFull(c, j + 1);
        assert Outcomes(p, keys, c)[j + 1].Accepted?;
      }
    }
  }

  /** Deleting the chronologically last record of an intact chain leaves an
      intact chain: the deletion is not detected. */
  lemma DroppingLastKeepsIntact(p: Primitives, keys: map<string, string>, c: seq<Tx>)
    requires Intact(p, keys, c) && |c| > 0
    ensures Intact(p, keys, c[..|c| - 1])
  {
    var d := c[..|c| - 1];
    forall j | 0 <= j < |d| ensures Outcomes(p, keys, d)[j].Accepted? {
      assert d[..j] == c[..j];
      assert Outcomes(p, keys, c)[j].Accepted?;
    }
  }

  /** A verdict list with exactly one failure at `i` yields a report with
      exactly that one entry. */
  lemma {:induction false} OnlyOneFlagged(os: seq<Outcome>, i: nat)
    requires i < |os|
    requires forall j :: 0 <= j < |os| ==> (os[j].Accepted? <==> j != i)
    ensures FlaggedEntries(os) == [os[i].entry]
    decreases |os|
  {
    var init := os[..|os| - 1];
    if i == |os| - 1 {
      NoFlaggedIffAllAccepted(init);
    } else {
      OnlyOneFlagged(init, i);
    }
  }

  /** A ledger whose chronological order has exactly one failing position
      `k` is reported with exactly that one entry. */
  lemma ReportOfSingleFailure(p: Primitives, keys: map<string, string>, txs: seq<Tx>, k: nat)
    requires k < |txs|
    requires forall j :: 0 <= j < |txs| ==> (Outcomes(p, keys, SortByTime(txs))[j].Accepted? <==> j != k)
    ensures var r := AuditLedger(p, keys, txs);
      && r.status == "KO" && !r.valid
      && r.invalidCount == 1 && r.validCount == |txs| - 1
      && r.invalidTransactions == [Outcomes(p, keys, SortByTime(txs))[k].entry]
      && r.invalidTransactions[0].tx == SortByTime(txs)[k]
  {
    var c := SortByTime(txs);
    ReplayFollowsOutcomes(p, keys, c);
    OnlyOneFlagged(Outcomes(p, keys, c), k);
  }

  /** A ledger whose audit says OK, changed so that its chronological order
      has record `k` replaced by one with the same fingerprint but a different
      signed message, is reported: status KO, exactly one invalid entry, and
      it is the new record. */
  lemma ReplacementReported(p: Primitives, keys: map<string, string>, txs: seq<Tx>, k: nat, y: Tx, txs': seq<Tx>)
    requires HashInjective(p)
    requires AuditLedger(p, keys, txs).valid
    requires k < |txs| && SortByTime(txs') == SortByTime(txs)[k := y]
    requires Full(y) && y.h == SortByTime(txs)[k].h
    requires Complete(SortByTime(txs)[k]) && MessageOf(p, y) != MessageOf(p, SortByTime(txs)[k])
    ensures var r := AuditLedger(p, keys, txs');
      && r.status == "KO" && r.invalidCount == 1 && r.validCount == |txs| - 1
      && r.invalidTransactions[0].tx == y
  {
    var c := SortByTime(txs);
    AuditValidIffIntact(p, keys, txs);
    TamperFlagsOnlyThatRecord(p, keys, c, k, y, c[k := y]);
    ReportOfSingleFailure(p, keys, txs', k);
  }

  /** In a ledger whose audit says OK, stored in any order, replacing one
      record by one with the same timestamp and fingerprint but a different
      signed message is reported: status KO, exactly one invalid entry, and
      it is that record. */
  lemma TamperedRecordReported(p: Primitives, keys: map<string, string>, txs: seq<Tx>, i: nat, y: Tx)
    requires HashInjective(p)
    requires AuditLedger(p, keys, txs).valid
    requires i < |txs| && SortKey(y) == SortKey(txs[i])
    requires Full(y) && y.h == txs[i].h
    requires Complete(txs[i]) && MessageOf(p, y) != MessageOf(p, txs[i])
    ensures var r := AuditLedger(p, keys, txs[i := y]);
      && r.status == "KO" && r.invalidCount == 1 && r.validCount == |txs| - 1
      && r.invalidTransactions[0].tx == y
  {
    SortReplace(txs, i, y);
    var k :| 0 <= k < |txs| && SortByTime(txs)[k] == txs[i] && SortByTime(txs[i := y]) == SortByTime(txs)[k := y];
    ReplacementReported(p, keys, txs, k, y, txs[i := y]);
  }

  /** A new amount changes the signed message, when distinct amounts render
      differently. */
  lemma AmountChangesMessage(p: Primitives, x: Tx, v: Amount)
    requires RenderInjective(p)
    requires Complete(x) && x.a != Some(v)
    ensures MessageOf(p, x.(a := Some(v))) != MessageOf(p, x)
  {
    var head := x.p1.value + "|" + x.p2.value + "|" + x.t.value + "|";
    CancelPrefix(head, p.showAmount(v), p.showAmount(x.a.value));
  }

  /** A new sender changes the signed message, whatever characters the two
      names contain: the rest of the message is shared. */
  lemma SenderChangesMessage(p: Primitives, x: Tx, sender: string)
    requires Complete(x) && x.p1 != Some(sender)
    ensures MessageOf(p, x.(p1 := Some(sender))) != MessageOf(p, x)
  {
    var rest := "|" + x.p2.value + "|" + x.t.value + "|" + p.showAmount(x.a.value);
    assert MessageOf(p, x.(p1 := Some(sender))) == sender + rest;
    assert MessageOf(p, x) == x.p1.value + rest;
    CancelSuffix(sender, x.p1.value, rest);
  }

  /** A new recipient changes the signed message, whatever characters the
      two names contain. */
  lemma RecipientChangesMessage(p: Primitives, x: Tx, recipient: string)
    requires Complete(x) && x.p2 != Some(recipient)
    ensures MessageOf(p, x.(p2 := Some(recipient))) != MessageOf(p, x)
  {
    var head := x.p1.value + "|";
    var rest := "|" + x.t.value + "|" + p.showAmount(x.a.value);
    assert MessageOf(p, x.(p2 := Some(recipient))) == head + (recipient + rest);
    assert MessageOf(p, x) == head + (x.p2.value + rest);
    CancelPrefix(head, recipient + rest, x.p2.value + rest);
    CancelSuffix(recipient, x.p2.value, rest);
  }

  /** Changing the amount of one record is detected, when distinct amounts
      render differently. */
  lemma AmountTamperReported(p: Primitives, keys: map<string, string>, txs: seq<Tx>, i: nat, v: Amount)
    requires HashInjective(p) && RenderInjective(p)
    requires AuditLedger(p, keys, txs).valid
    requires i < |txs| && Complete(txs[i]) && txs[i].h.Some?
    requires txs[i].a != Some(v)
    ensures var r := AuditLedger(p, keys, txs[i := txs[i].(a := Some(v))]);
      && r.status == "KO" && r.invalidCount == 1 && r.validCount == |txs| - 1
      && r.invalidTransactions[0].tx == txs[i].(a := Some(v))
  {
    AmountChangesMessage(p, txs[i], v);
    TamperedRecordReported(p, keys, txs, i, txs[i].(a := Some(v)));
  }

  /** Changing the sender of one record is detected. */
  lemma SenderTamperReported(p: Primitives, keys: map<string, string>, txs: seq<Tx>, i: nat, sender: string)
    requires HashInjective(p)
    requires AuditLedger(p, keys, txs).valid
    requires i < |txs| && Complete(txs[i]) && txs[i].h.Some?
    requires txs[i].p1 != Some(sender)
    ensures var r := AuditLedger(p, keys, txs[i := txs[i].(p1 := Some(sender))]);
      && r.status == "KO" && r.invalidCount == 1 && r.validCount == |txs| - 1
      && r.invalidTransactions[0].tx == txs[i].(p1 := Some(sender))
  {
    SenderChangesMessage(p, txs[i], sender);
    TamperedRecordReported(p, keys, txs, i, txs[i].(p1 := Some(sender)));
  }

  /** Changing the recipient of one record is detected. */
  lemma RecipientTamperReported(p: Primitives, keys: map<string, string>, txs: seq<Tx>, i: nat, recipient: string)
    requires HashInjective(p)
    requires AuditLedger(p, keys, txs).valid
    requires i < |txs| && Complete(txs[i]) && txs[i].h.Some?
    requires txs[i].p2 != Some(recipient)
    ensures var r := AuditLedger(p, keys, txs[i := txs[i].(p2 := Some(recipient))]);
      && r.status == "KO" && r.invalidCount == 1 && r.validCount == |txs| - 1
      && r.invalidTransactions[0].tx == txs[i].(p2 := Some(recipient))
  {
    RecipientChangesMessage(p, txs[i], recipient);
    TamperedRecordReported(p, keys, txs, i, txs[i].(p2 := Some(recipient)));
  }

  /** A new timestamp changes the signed message, whatever characters the
      two timestamps contain. */
  lemma TimeChangesMessage(p: Primitives, x: Tx, t: string)
    requires Complete(x) && x.t != Some(t)
    ensures MessageOf(p, x.(t := Some(t))) != MessageOf(p, x)
  {
    var head := x.p1.value + "|" + x.p2.value + "|";
    var rest := "|" + p.showAmount(x.a.value);
    assert MessageOf(p, x.(t := Some(t))) == head + (t + rest);
    assert MessageOf(p, x) == head + (x.t.value + rest);
    CancelPrefix(head, t + rest, x.t.value + rest);
    CancelSuffix(t, x.t.value, rest);
  }

  /** Changing the timestamp of one record of a ledger stored in timestamp
      order, in a way that keeps it in that order, is detected. */
  lemma TimeTamperReported(p: Primitives, keys: map<string, string>, txs: seq<Tx>, i: nat, t: string)
    requires HashInjective(p)
    requires Sorted(txs) && AuditLedger(p, keys, txs).valid
    requires i < |txs| && Complete(txs[i]) && txs[i].h.Some?
    requires txs[i].t != Some(t) && Sorted(txs[i := txs[i].(t := Some(t))])
    ensures var r := AuditLedger(p, keys, txs[i := txs[i].(t := Some(t))]);
      && r.status == "KO" && r.invalidCount == 1 && r.validCount == |txs| - 1
      && r.invalidTransactions[0].tx == txs[i].(t := Some(t))
  {
    var y := txs[i].(t := Some(t));
    TimeChangesMessage(p, txs[i], t);
    SortedUnchanged(txs);
    SortedUnchanged(txs[i := y]);
    ReplacementReported(p, keys, txs, i, y, txs[i := y]);
  }

  /** Deleting from a ledger whose audit says OK the record at chronological
      position `k`, not the last, is reported as exactly one invalid entry,
      its successor, provided the deleted record's fingerprint differs from
      the one it was chained on. */
  lemma InteriorDeletionReported(p: Primitives, keys: map<string, string>, txs: seq<Tx>, k: nat, d: seq<Tx>)
    requires HashInjective(p)
    requires AuditLedger(p, keys, txs).valid
    requires k + 1 < |txs|
    requires SortByTime(d) == SortByTime(txs)[..k] + SortByTime(txs)[k + 1..]
    requires SortByTime(txs)[k].h != Some(StoredPrev(SortByTime(txs), k))
    ensures var r := AuditLedger(p, keys, d);
      && r.status == "KO" && r.invalidCount == 1 && r.validCount == |txs| - 2
      && r.invalidTransactions[0].tx == SortByTime(txs)[k + 1]
  {
    var c := SortByTime(txs);
    AuditValidIffIntact(p, keys, txs);
    DeletionFlagsOnlySuccessor(p, keys, c, k);
    ReportOfSingleFailure(p, keys, d, k);
    assert (c[..k] + c[k + 1..])[k] == c[k + 1];
  }

  /** Deleting from a ledger whose audit says OK the chronologically last
      record leaves an OK audit. */
  lemma LastDeletionUndetected(p: Primitives, keys: map<string, string>, txs: seq<Tx>, d: seq<Tx>)
    requires AuditLedger(p, keys, txs).valid && |txs| > 0
    requires SortByTime(d) == SortByTime(txs)[..|txs| - 1]
    ensures AuditLedger(p, keys, d).valid
  {
    AuditValidIffIntact(p, keys, txs);
    DroppingLastKeepsIntact(p, keys, SortByTime(txs));
    AuditValidIffIntact(p, keys, d);
  }

  /** What deleting record `i` does to the audit, when that record sorted to
      chronological position `k`: the other records keep their chronological
      order; if `k` is the last position the report stays OK; otherwise, if
      the deleted record's fingerprint differs from the one it was chained
      on, the report is KO with exactly one invalid entry, its chronological
      successor. */
  ghost predicate DeletionSeen(p: Primitives, keys: map<string, string>, txs: seq<Tx>, i: nat, k: nat)
    requires i < |txs|
  {
    var c, d := SortByTime(txs), txs[..i] + txs[i + 1..];
    var r := AuditLedger(p, keys, d);
    && k < |txs| && c[k] == txs[i]
    && SortByTime(d) == c[..k] + c[k + 1..]
    && (k + 1 == |txs| ==> r.valid)
    && (k + 1 < |txs| && txs[i].h != Some(StoredPrev(c, k)) ==>
          && r.status == "KO" && r.invalidCount == 1 && r.validCount == |txs| - 2
          && r.invalidTransactions[0].tx == c[k + 1])
  }

  /** Deleting one record, in any stored order, from a ledger whose audit
      says OK has the effect `DeletionSeen` describes, for the position the
      record sorted to. */
  lemma DeletionReported(p: Primitives, keys: map<string, string>, txs: seq<Tx>, i: nat)
    requires HashInjective(p)
    requires AuditLedger(p, keys, txs).valid
    requires i < |txs|
    ensures exists k :: DeletionSeen(p, keys, txs, i, k)
  {
    var c, d := SortByTime(txs), txs[..i] + txs[i + 1..];
    SortDelete(txs, i);
    var k :| && 0 <= k < |txs| && c[k] == txs[i]
             && SortByTime(d) == c[..k] + c[k + 1..];
    if k + 1 == |txs| {
      assert c[..k] + c[k + 1..] == c[..|txs| - 1];
      LastDeletionUndetected(p, keys, txs, d);
    } else if txs[i].h != Some(StoredPrev(c, k)) {
      InteriorDeletionReported(p, keys, txs, k, d);
    }
    assert DeletionSeen(p, keys, txs, i, k);
  }

  /** An intact chain extended by a full unsigned record chained on the
      running fingerprint stays intact. */
  lemma ExtendKeepsIntact(p: Primitives, keys: map<string, string>, c: seq<Tx>, x: Tx)
    requires Intact(p, keys, c)
    requires Full(x) && x.signature.None?
    requires x.h == Some(Recomputed(p, RunningPrev(c), x))
    ensures Intact(p, keys, c + [x])
  {
    var c' := c + [x];
    forall j | 0 <= j < |c'| ensures Outcomes(p, keys, c')[j].Accepted? {
      if j < |c| {
        assert c'[..j] == c[..j];
        assert Outcomes(p, keys, c)[j].Accepted?;
      } else {
        assert c'[..j] == c;
      }
    }
  }

  /** On an intact chain the builder's predecessor is the audit's running
      fingerprint. */
  lemma BuilderMatchesAudit(p: Primitives, keys: map<string, string>, txs: seq<Tx>)
    requires Intact(p, keys, SortByTime(txs))
    ensures PredecessorHash(txs) == RunningPrev(SortByTime(txs))
  {
    var c := SortByTime(txs);
    if c != [] {
      IntactRecordsAreFull(p, keys, c);
      RunningPrevAfterFull(c, |c|);
    }
  }

  /** Appending an unsigned record whose timestamp is no earlier than any
      stored one keeps an OK audit OK, and keeps a ledger stored in timestamp
      order in that order. */
  lemma AppendKeepsAuditOK(p: Primitives, keys: map<string, string>, txs: seq<Tx>, req: Request, now: string)
    requires AuditLedger(p, keys, txs).valid
    requires Admit(p, keys, txs, req, now).Ok? && !Signed(req)
    requires AllNoLaterThan(txs, ChosenTime(req, now))
    ensures AuditLedger(p, keys, txs + [Admit(p, keys, txs, req, now).value]).valid
    ensures Sorted(txs) ==> Sorted(txs + [Admit(p, keys, txs, req, now).value])
  {
    var x := Admit(p, keys, txs, req, now).value;
    AppendLatest(txs, x);
    AuditValidIffIntact(p, keys, txs);
    BuilderMatchesAudit(p, keys, txs);
    ExtendKeepsIntact(p, keys, SortByTime(txs), x);
    AuditValidIffIntact(p, keys, txs + [x]);
  }

  /** A record chained on the genesis value, appended to a chronological
      sequence whose running fingerprint is something else, fails. */
  lemma ChainedOnGenesisFlagged(p: Primitives, keys: map<string, string>, c: seq<Tx>, y: Tx)
    requires HashInjective(p)
    requires RunningPrev(c) != Genesis
    requires Complete(y) && y.h == Some(Recomputed(p, Genesis, y))
    ensures Outcomes(p, keys, c + [y])[|c|].Flagged?
  {
    assert (c + [y])[..|c|] == c;
    DistinctPrevsDistinctHashes(p, RunningPrev(c), Genesis, y);
  }

  /** The builder and the audit disagree after a legacy record: when the
      chronologically last stored record has no `h` and the audit's running
      fingerprint is not the genesis value, a record `y` appended after it is
      chained on the genesis value, and the audit flags it. */
  lemma AppendAfterLegacyTailFlagged(p: Primitives, keys: map<string, string>, txs: seq<Tx>,
                                     req: Request, now: string, y: Tx)
    requires HashInjective(p)
    requires Admit(p, keys, txs, req, now) == Ok(y)
    requires txs != [] && SortByTime(txs)[|txs| - 1].h.None?
    requires RunningPrev(SortByTime(txs)) != Genesis
    requires AllNoLaterThan(txs, ChosenTime(req, now))
    ensures SortByTime(txs + [y])[|txs|] == y
    ensures Outcomes(p, keys, SortByTime(txs + [y]))[|txs|].Flagged?
  {
    var c := SortByTime(txs);
    var r := Admit(p, keys, txs, req, now);
    assert y.t == Some(ChosenTime(req, now)) && Complete(y) && y.h == Some(Recomputed(p, PredecessorHash(txs), y)) by {
      assert r.Ok? && r.value == y;
    }
    LegacyLastRestartsBuilder(txs);
    AppendLatest(txs, y);
    assert SortByTime(txs + [y]) == c + [y];
    ChainedOnGenesisFlagged(p, keys, c, y);
  }

  /** The forged record of `BarInNamesHidesTamper`. */
  function MoveBar(tx: Tx, x: string, y: string, z: string): (f: Tx)
    ensures tx.p1 == Some(x + "|" + y) ==> f != tx
    ensures f.h == tx.h && f.t == tx.t && f.a == tx.a && f.signature == tx.signature
  {
    assert |x| < |x + "|" + y|;
    tx.(p1 := Some(x), p2 := Some(y + "|" + z))
  }

  /** Replacing an unsigned record of an intact chain by an unsigned record
      with the same fingerprint and the same signed message keeps the chain
      intact. */
  lemma SameMessageKeepsIntact(p: Primitives, keys: map<string, string>, c: seq<Tx>, i: nat, y: Tx)
    requires Intact(p, keys, c) && i < |c|
    requires Full(y) && y.h == c[i].h && y.signature.None?
    requires Complete(c[i]) && MessageOf(p, y) == MessageOf(p, c[i])
    ensures Intact(p, keys, c[i := y])
  {
    var t := c[i := y];
    IntactRecordsAreFull(p, keys, c);
    ReplaceKeepsOthers(p, keys, c, i, y);
    assert Outcomes(p, keys, c)[i].Accepted?;
    assert Recomputed(p, RunningPrev(c[..i]), y) == Recomputed(p, RunningPrev(c[..i]), c[i]);
    forall j | 0 <= j < |t| ensures Outcomes(p, keys, t)[j].Accepted? {
      if j != i {
        assert Outcomes(p, keys, c)[j].Accepted?;
      }
    }
  }

  /** Moving a `|` between the names of an unsigned record of an intact
      chain keeps the chain intact. */
  lemma MoveBarKeepsIntact(p: Primitives, keys: map<string, string>, c: seq<Tx>, k: nat,
                           x: string, y: string, z: string)
    requires Intact(p, keys, c)
    requires k < |c| && c[k].p1 == Some(x + "|" + y) && c[k].p2 == Some(z)
    requires c[k].signature.None?
    ensures Intact(p, keys, c[k := MoveBar(c[k], x, y, z)])
  {
    IntactRecordsAreFull(p, keys, c);
    DelimiterAmbiguity(p, x, y, z, c[k].t.value, c[k].a.value);
    SameMessageKeepsIntact(p, keys, c, k, MoveBar(c[k], x, y, z));
  }

  /** The unescaped delimiter hides a tamper: moving a `|` from the sender's
      name of an unsigned record into the recipient's, in a ledger stored in
      any order, leaves the signed message, hence the fingerprint and the
      whole audit, unchanged. */
  lemma BarInNamesHidesTamper(p: Primitives, keys: map<string, string>, txs: seq<Tx>, i: nat,
                              x: string, y: string, z: string)
    requires AuditLedger(p, keys, txs).valid
    requires i < |txs| && txs[i].p1 == Some(x + "|" + y) && txs[i].p2 == Some(z)
    requires txs[i].signature.None?
    ensures MoveBar(txs[i], x, y, z) != txs[i]
    ensures AuditLedger(p, keys, txs[i := MoveBar(txs[i], x, y, z)]).valid
  {
    var forged := MoveBar(txs[i], x, y, z);
    var c := SortByTime(txs);
    SortReplace(txs, i, forged);
    var k :| 0 <= k < |txs| && c[k] == txs[i] && SortByTime(txs[i := forged]) == c[k := forged];
    AuditValidIffIntact(p, keys, txs);
    MoveBarKeepsIntact(p, keys, c, k, x, y, z);
    AuditValidIffIntact(p, keys, txs[i := forged]);
  }
}
