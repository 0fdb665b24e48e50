/** The audit of `verify_integrity`, as a specification: the verdict on one
    record against the running predecessor fingerprint, the fold that replays
    the chronologically sorted ledger, and the report built from it. */
module Audit {
  import opened Common
  import opened Records
  import opened Chronology

  const NoHashReason: string := "Transaction v1 sans hash"
  const MissingFieldsReason: string := "Champs manquants pour le calcul du hash"
  const HashReason: string := "Hash invalide ou chaîne cassée"
  const SignatureReason: string := "Signature invalide ou clé publique manquante"

  /** One element of `invalid_transactions`. Records without `h` and records
      missing a field carry only `id`, `reason` and the record; the others
      carry the debugging fields, `None` standing for JSON `null`. */
  datatype Entry =
    | Unhashed(id: Option<int>, tx: Tx)
    | Incomplete(id: Option<int>, tx: Tx)
    | Rejected(id: Option<int>, reason: string, computedHash: Option<string>,
               storedHash: Option<string>, expectedPrevHash: Option<string>,
               signatureValid: Option<bool>, tx: Tx)
  {
    function Reason(): string
    {
      match this
      case Unhashed(_, _) => NoHashReason
      case Incomplete(_, _) => MissingFieldsReason
      case Rejected(_, reason, _, _, _, _, _) => reason
    }
  }

  /** The verdict on one record: its id goes to `valid_transactions`, or an
      entry goes to `invalid_transactions`. */
  datatype Outcome = Accepted(id: Option<int>) | Flagged(entry: Entry)

  /** The signature check of a complete record: vacuous without a
      `signature` field; otherwise the sender needs a (non-empty) registered
      key that verifies the signed message. */
  predicate SignatureAccepted(p: Primitives, keys: map<string, string>, tx: Tx)
    requires Complete(tx)
  {
    tx.signature.None? ||
      (var k := KeyOf(keys, tx.p1.value);
       Usable(k) && p.verifyPss(k.value, MessageOf(p, tx), tx.signature.value))
  }

  /** `"; ".join(reasons)` for a record that failed at least one check. */
  function RejectionReason(hashValid: bool, signatureValid: bool): (r: string)
    requires !hashValid || !signatureValid
    ensures r == HashReason + "; " + SignatureReason <==> !hashValid && !signatureValid
    ensures r == HashReason <==> !hashValid && signatureValid
    ensures r == SignatureReason <==> hashValid && !signatureValid
  {
    if !hashValid && !signatureValid then HashReason + "; " + SignatureReason
    else if !hashValid then HashReason
    else SignatureReason
  }

  /** The body of the audit loop for one record, given the running
      predecessor fingerprint `prev`. */
  function Examine(p: Primitives, keys: map<string, string>, prev: string, tx: Tx): (o: Outcome)
    ensures tx.h.None? ==> o == Flagged(Unhashed(tx.id, tx))
    ensures tx.h.Some? && !Complete(tx) ==> o == Flagged(Incomplete(tx.id, tx))
    ensures o.Accepted? <==>
      tx.h.Some? && Complete(tx) && Recomputed(p, prev, tx) == tx.h.value && SignatureAccepted(p, keys, tx)
    ensures o.Accepted? ==> o.id == tx.id
    ensures o.Flagged? ==> o.entry.id == tx.id && o.entry.tx == tx
    ensures o.Flagged? && o.entry.Rejected? ==>
      && tx.h.Some? && Complete(tx)
      && (o.entry.computedHash.Some? <==> Recomputed(p, prev, tx) != tx.h.value)
      && (o.entry.computedHash.Some? ==>
            && o.entry.computedHash.value == Recomputed(p, prev, tx)
            && o.entry.storedHash == tx.h
            && o.entry.expectedPrevHash == Some(prev))
      && (o.entry.computedHash.None? ==> o.entry.storedHash.None? && o.entry.expectedPrevHash.None?)
      && (o.entry.signatureValid.None? <==> tx.signature.None?)
      && (o.entry.signatureValid.Some? ==> o.entry.signatureValid.value == SignatureAccepted(p, keys, tx))
  {
    if tx.h.None? then Flagged(Unhashed(tx.id, tx))
    else if !Complete(tx) then Flagged(Incomplete(tx.id, tx))
    else
      var computed := Recomputed(p, prev, tx);
      var stored := tx.h.value;
      var hashValid := computed == stored;
      var signatureValid := SignatureAccepted(p, keys, tx);
      if hashValid && signatureValid then Accepted(tx.id)
      else
        Flagged(Rejected(tx.id, RejectionReason(hashValid, signatureValid),
          if !hashValid then Some(computed) else None,
          if !hashValid then Some(stored) else None,
          if !hashValid then Some(prev) else None,
          if tx.signature.Some? then Some(signatureValid) else None,
          tx))
  }

  /** The running `prev_hash` after one record: the STORED fingerprint of
      every record that has `h` and all four fields, valid or not; unchanged
      after a record that hit `continue`. */
  function NextPrev(prev: string, tx: Tx): (next: string)
    ensures tx.h.Some? && Complete(tx) ==> next == tx.h.value
    ensures !(tx.h.Some? && Complete(tx)) ==> next == prev
    ensures next == prev || Some(next) == tx.h
  {
    if tx.h.Some? && Complete(tx) then tx.h.value else prev
  }

  /** `prev_hash` after replaying `s` from the genesis value. */
  function RunningPrev(s: seq<Tx>): string
    decreases |s|
  {
    if s == [] then Genesis else NextPrev(RunningPrev(s[..|s| - 1]), s[|s| - 1])
  }

  /** The loop state: `prev_hash`, `valid_txs` and `invalid_txs`. */
  datatype Tally = Tally(prevHash: string, validIds: seq<Option<int>>, invalid: seq<Entry>)

  /** One loop iteration: the record's verdict is appended to exactly one of
      the two lists, which only grow, and `prev_hash` moves as `NextPrev`
      says. */
  function Step(p: Primitives, keys: map<string, string>, st: Tally, tx: Tx): (next: Tally)
    ensures next.prevHash == NextPrev(st.prevHash, tx)
    ensures Examine(p, keys, st.prevHash, tx).Accepted? ==>
      next.validIds == st.validIds + [tx.id] && next.invalid == st.invalid
    ensures Examine(p, keys, st.prevHash, tx).Flagged? ==>
      && next.validIds == st.validIds
      && next.invalid == st.invalid + [Examine(p, keys, st.prevHash, tx).entry]
      && next.invalid[|st.invalid|].tx == tx
  {
    match Examine(p, keys, st.prevHash, tx)
    case Accepted(id) => Tally(NextPrev(st.prevHash, tx), st.validIds + [id], st.invalid)
    case Flagged(e) => Tally(NextPrev(st.prevHash, tx), st.validIds, st.invalid + [e])
  }

  /** One loop iteration on a record that has `h` and all four fields, with
      the signature check spelled out as the loop body performs it. */
  lemma StepOnFullRecord(p: Primitives, keys: map<string, string>, st: Tally, tx: Tx, signatureValid: bool)
    requires tx.h.Some? && Complete(tx)
    requires signatureValid == SignatureAccepted(p, keys, tx)
    ensures var computed := Recomputed(p, st.prevHash, tx);
      var hashValid := computed == tx.h.value;
      Step(p, keys, st, tx) ==
        if hashValid && signatureValid then Tally(tx.h.value, st.validIds + [tx.id], st.invalid)
        else Tally(tx.h.value, st.validIds, st.invalid + [Rejected(tx.id, RejectionReason(hashValid, signatureValid),
          if !hashValid then Some(computed) else None,
          if !hashValid then Some(tx.h.value) else None,
          if !hashValid then Some(st.prevHash) else None,
          if tx.signature.Some? then Some(signatureValid) else None,
          tx)])
  {
  }

  /** The continuation policy: after a record with `h` and all four fields
      the running fingerprint is that record's STORED `h`, whether the record
      passed or not; a record skipped by `continue` leaves it unchanged and
      is reported as invalid. */
  lemma CarryForward(p: Primitives, keys: map<string, string>, st: Tally, tx: Tx)
    ensures tx.h.Some? && Complete(tx) ==> Step(p, keys, st, tx).prevHash == tx.h.value
    ensures !(tx.h.Some? && Complete(tx)) ==>
      && Step(p, keys, st, tx).prevHash == st.prevHash
      && Step(p, keys, st, tx).validIds == st.validIds
      && Step(p, keys, st, tx).invalid == st.invalid + [if tx.h.None? then Unhashed(tx.id, tx) else Incomplete(tx.id, tx)]
  {
  }

  /** The loop run over the records `c`, in the order given. Every record
      lands in exactly one of the two lists. */
  function Replay(p: Primitives, keys: map<string, string>, c: seq<Tx>): (st: Tally)
    ensures |st.validIds| + |st.invalid| == |c|
    ensures st.prevHash == RunningPrev(c)
    decreases |c|
  {
    if c == [] then Tally(Genesis, [], [])
    else Step(p, keys, Replay(p, keys, c[..|c| - 1]), c[|c| - 1])
  }

  /** Replaying one more record is one more `Step`. */
  lemma ReplayOneMore(p: Primitives, keys: map<string, string>, c: seq<Tx>, i: nat)
    requires i < |c|
    ensures Replay(p, keys, c[..i + 1]) == Step(p, keys, Replay(p, keys, c[..i]), c[i])
  {
    assert c[..i + 1][..i] == c[..i];
  }

  /** The JSON report of the `/verify` endpoint. */
  datatype Report = Report(
    status: string,
    valid: bool,
    totalTransactions: nat,
    validCount: nat,
    invalidCount: nat,
    validTransactions: seq<Option<int>>,
    invalidTransactions: seq<Entry>)

  /** The report built from the replay of the chronologically sorted
      records. */
  function MakeReport(total: nat, st: Tally): Report
  {
    var isValid := |st.invalid| == 0;
    Report(if isValid then "OK" else "KO", isValid, total,
           |st.validIds|, |st.invalid|, st.validIds, st.invalid)
  }

  /** `verify_integrity` as a function of the ledger and the key registry. */
  function AuditLedger(p: Primitives, keys: map<string, string>, txs: seq<Tx>): (r: Report)
    ensures r.totalTransactions == |txs|
    ensures r.validCount + r.invalidCount == r.totalTransactions
    ensures r.validCount == |r.validTransactions| && r.invalidCount == |r.invalidTransactions|
    ensures r.valid <==> r.invalidTransactions == []
    ensures r.status == (if r.valid then "OK" else "KO")
  {
    MakeReport(|txs|, Replay(p, keys, SortByTime(txs)))
  }

  /** The verdicts on the records of `c`, position by position: record `i`
      is examined against the running fingerprint left by `c[..i]`. */
  function Outcomes(p: Primitives, keys: map<string, string>, c: seq<Tx>): (os: seq<Outcome>)
    ensures |os| == |c|
  {
    seq(|c|, i requires 0 <= i < |c| => Examine(p, keys, RunningPrev(c[..i]), c[i]))
  }

  function AcceptedIds(os: seq<Outcome>): seq<Option<int>>
    decreases |os|
  {
    if os == [] then []
    else AcceptedIds(os[..|os| - 1]) + (if os[|os| - 1].Accepted? then [os[|os| - 1].id] else [])
  }

  function FlaggedEntries(os: seq<Outcome>): seq<Entry>
    decreases |os|
  {
    if os == [] then []
    else FlaggedEntries(os[..|os| - 1]) + (if os[|os| - 1].Flagged? then [os[|os| - 1].entry] else [])
  }

  lemma OutcomesOfPrefix(p: Primitives, keys: map<string, string>, c: seq<Tx>)
    requires |c| > 0
    ensures Outcomes(p, keys, c) ==
      Outcomes(p, keys, c[..|c| - 1]) + [Examine(p, keys, RunningPrev(c[..|c| - 1]), c[|c| - 1])]
  {
    var init := c[..|c| - 1];
    forall i | 0 <= i < |init| ensures init[..i] == c[..i] { }
  }

  /** Both lists of the report follow chronological order: the valid ids are
      those of the accepted records and the invalid entries those of the
      flagged records, each in replay order. */
  lemma {:induction false} ReplayFollowsOutcomes(p: Primitives, keys: map<string, string>, c: seq<Tx>)
    ensures Replay(p, keys, c).validIds == AcceptedIds(Outcomes(p, keys, c))
    ensures Replay(p, keys, c).invalid == FlaggedEntries(Outcomes(p, keys, c))
    decreases |c|
  {
    if c != [] {
      var os := Outcomes(p, keys, c);
      ReplayFollowsOutcomes(p, keys, c[..|c| - 1]);
      OutcomesOfPrefix(p, keys, c);
      assert os[..|os| - 1] == Outcomes(p, keys, c[..|c| - 1]);
    }
  }

  /** Every record of `c` passes the audit. */
  ghost predicate Intact(p: Primitives, keys: map<string, string>, c: seq<Tx>)
  {
    forall i :: 0 <= i < |c| ==> Outcomes(p, keys, c)[i].Accepted?
  }

  lemma {:induction false} NoFlaggedIffAllAccepted(os: seq<Outcome>)
    ensures FlaggedEntries(os) == [] <==> forall i :: 0 <= i < |os| ==> os[i].Accepted?
    decreases |os|
  {
    if os != [] {
      NoFlaggedIffAllAccepted(os[..|os| - 1]);
    }
  }

  /** The audit says OK exactly when every record in chronological order
      passes. */
  lemma AuditValidIffIntact(p: Primitives, keys: map<string, string>, txs: seq<Tx>)
    ensures AuditLedger(p, keys, txs).valid <==> Intact(p, keys, SortByTime(txs))
  {
    var c := SortByTime(txs);
    ReplayFollowsOutcomes(p, keys, c);
    NoFlaggedIffAllAccepted(Outcomes(p, keys, c));
  }

  /** The fingerprint a record is chained on when it follows `c[..i]` and
      every earlier record carries one: the previous record's, or the genesis
      value. */
  function StoredPrev(c: seq<Tx>, i: nat): string
    requires i <= |c|
  {
    if i == 0 || c[i - 1].h.None? then Genesis else c[i - 1].h.value
  }

  /** The invariant of a ledger built by appends: every record has all fields
      and a fingerprint equal to the hash of its message chained on its
      predecessor's fingerprint, and every signature checks. */
  ghost predicate WellLinked(p: Primitives, keys: map<string, string>, c: seq<Tx>)
  {
    forall i :: 0 <= i < |c| ==>
      && c[i].h.Some? && Complete(c[i]) && SignatureAccepted(p, keys, c[i])
      && c[i].h.value == Recomputed(p, StoredPrev(c, i), c[i])
  }

  lemma RunningPrevAfterFull(c: seq<Tx>, i: nat)
    requires 0 < i <= |c|
    requires c[i - 1].h.Some? && Complete(c[i - 1])
    ensures RunningPrev(c[..i]) == c[i - 1].h.value
  {
    assert c[..i][i - 1] == c[i - 1];
  }

  /** The audit of a chronological sequence passes exactly when the sequence
      is a well-linked chain. */
  lemma IntactIffWellLinked(p: Primitives, keys: map<string, string>, c: seq<Tx>)
    ensures Intact(p, keys, c) <==> WellLinked(p, keys, c)
  {
    var os := Outcomes(p, keys, c);
    if Intact(p, keys, c) {
      forall i | 0 <= i < |c|
        ensures c[i].h.Some? && Complete(c[i]) && SignatureAccepted(p, keys, c[i])
        ensures c[i].h.value == Recomputed(p, StoredPrev(c, i), c[i])
      {
        assert os[i].Accepted?;
        if i > 0 {
          assert os[i - 1].Accepted?;
          RunningPrevAfterFull(c, i);
        }
      }
    }
    if WellLinked(p, keys, c) {
      forall i | 0 <= i < |c| ensures os[i].Accepted? {
        if i > 0 { RunningPrevAfterFull(c, i); }
      }
    }
  }
}
