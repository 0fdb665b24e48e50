/** The state behind the HTTP handlers of `app.py`: the transaction list and
    the public-key registry, updated in place by `add_transaction` and
    `save_public_key` and read by `verify_integrity`. */
module LedgerStore {
  import opened Common
  import opened Records
  import opened Chronology
  import opened Chain
  import opened Audit

  class Ledger {
    /** The stored records, in append order (`tx.json`). */
    var txs: seq<Tx>
    /** Party name to PEM public key (`keys.json`). */
    var keys: map<string, string>

    /** `ensure_storage`: an empty list and an empty registry. */
    constructor ()
      ensures txs == [] && keys == map[]
    {
      txs := [];
      keys := map[];
    }

    /** `get_public_key`. */
    function GetPublicKey(person: string): Option<string>
      reads this
    {
      KeyOf(keys, person)
    }

    /** `save_public_key`: adds or replaces the person's key; the last
        registration wins and no other entry changes. */
    method SavePublicKey(person: string, publicKeyPem: string)
      modifies this`keys
      ensures keys == old(keys)[person := publicKeyPem]
      ensures GetPublicKey(person) == Some(publicKeyPem)
      ensures forall q :: q != person ==> GetPublicKey(q) == old(GetPublicKey(q))
    {
      keys := keys[person := publicKeyPem];
    }

    /** `add_transaction`: checks the required fields and, when a signature
        is given, the sender's key and the signature; then chains the new
        record on the chronologically last one and appends it. A refused
        request leaves the ledger as it was. */
    method AddTransaction(p: Primitives, req: Request, now: string) returns (r: Result<Tx, AddError>)
      modifies this`txs
      ensures r == Admit(p, keys, old(txs), req, now)
      ensures txs == if r.Ok? then old(txs) + [r.value] else old(txs)
    {
      if !(req.p1.Some? && req.p2.Some? && req.a.Some?) {
        return Err(MissingFields);
      }
      var p1, p2, a := req.p1.value, req.p2.value, req.a.value;
      var t := ChosenTime(req, now);
      if Signed(req) {
        var publicKeyPem := GetPublicKey(p1);
        if !Usable(publicKeyPem) {
          return Err(UnknownKey(p1));
        }
        var message := SigningMessage(p, p1, p2, t, a);
        if !p.verifyPss(publicKeyPem.value, message, req.signature.value) {
          return Err(BadSignature);
        }
      }
      var txId := |txs| + 1;
      var prevHash := Genesis;
      if txs != [] {
        var sortedTxs := SortByTime(txs);
        var lastTx := sortedTxs[|sortedTxs| - 1];
        if lastTx.h.Some? {
          prevHash := lastTx.h.value;
        }
      }
      var h := ComputeHash(p, p1, p2, t, a, prevHash);
      var tx := Tx(Some(txId), Some(p1), Some(p2), Some(t), Some(a), Some(h), None);
      if Signed(req) {
        tx := tx.(signature := req.signature);
      }
      txs := txs + [tx];
      r := Ok(tx);
    }

    /** The signature step of `verify_integrity`: a record without a
        signature passes; a signed record passes exactly when its sender has a
        non-empty registered key under which the signature verifies. */
    method CheckSignature(p: Primitives, tx: Tx) returns (signatureValid: bool)
      requires Complete(tx)
      ensures signatureValid <==>
        (|| tx.signature.None?
         || (tx.p1.value in keys && keys[tx.p1.value] != "" &&
             p.verifyPss(keys[tx.p1.value], MessageOf(p, tx), tx.signature.value)))
      ensures signatureValid == SignatureAccepted(p, keys, tx)
    {
      signatureValid := true;
      if tx.signature.Some? {
        var publicKeyPem := GetPublicKey(tx.p1.value);
        if Usable(publicKeyPem) {
          var message := SigningMessage(p, tx.p1.value, tx.p2.value, tx.t.value, tx.a.value);
          signatureValid := p.verifyPss(publicKeyPem.value, message, tx.signature.value);
        } else {
          signatureValid := false;
        }
      }
    }

    /** The checks `verify_integrity` makes on a record that has `h` and all
        four fields: the recomputed fingerprint on the running `prevHash`
        against the stored one, then the signature; the record is accepted or
        reported with the failed checks. */
    method CheckFullRecord(p: Primitives, tx: Tx, prevHash: string) returns (outcome: Outcome)
      requires tx.h.Some? && Complete(tx)
      ensures outcome == Examine(p, keys, prevHash, tx)
    {
      var computedHash := ComputeHash(p, tx.p1.value, tx.p2.value, tx.t.value, tx.a.value, prevHash);
      var storedHash := tx.h.value;
      var hashValid := computedHash == storedHash;
      var signatureValid := CheckSignature(p, tx);
      if hashValid && signatureValid {
        outcome := Accepted(tx.id);
      } else {
        outcome := Flagged(Rejected(tx.id, RejectionReason(hashValid, signatureValid),
          if !hashValid then Some(computedHash) else None,
          if !hashValid then Some(storedHash) else None,
          if !hashValid then Some(prevHash) else None,
          if tx.signature.Some? then Some(signatureValid) else None,
          tx));
      }
    }

    /** One iteration of the `verify_integrity` loop: a record without `h`
        or missing a field is reported and skipped; any other record is
        checked, and the running fingerprint moves to its stored `h`. */
    method AuditRecord(p: Primitives, tx: Tx, prev: string, valid: seq<Option<int>>, invalid: seq<Entry>)
      returns (prevHash: string, validTxs: seq<Option<int>>, invalidTxs: seq<Entry>)
      ensures Tally(prevHash, validTxs, invalidTxs) == Step(p, keys, Tally(prev, valid, invalid), tx)
    {
      prevHash, validTxs, invalidTxs := prev, valid, invalid;
      if tx.h.None? {
        invalidTxs := invalidTxs + [Unhashed(tx.id, tx)];
        return;
      }
      if !Complete(tx) {
        invalidTxs := invalidTxs + [Incomplete(tx.id, tx)];
        return;
      }
      var outcome := CheckFullRecord(p, tx, prevHash);
      if outcome.Accepted? {
        validTxs := validTxs + [outcome.id];
      } else {
        invalidTxs := invalidTxs + [outcome.entry];
      }
      prevHash := tx.h.value;
    }

    /** `verify_integrity`: replays the records in timestamp order, checking
        each fingerprint against the running predecessor and each signature
        against the registry, and reports every record. */
    method VerifyIntegrity(p: Primitives) returns (report: Report)
      ensures report == AuditLedger(p, keys, txs)
    {
      var validTxs: seq<Option<int>> := [];
      var invalidTxs: seq<Entry> := [];
      var sortedTxs := SortByTime(txs);
      var prevHash := Genesis;
      for i := 0 to |sortedTxs|
        invariant Tally(prevHash, validTxs, invalidTxs) == Replay(p, keys, sortedTxs[..i])
      {
        ReplayOneMore(p, keys, sortedTxs, i);
        prevHash, validTxs, invalidTxs := AuditRecord(p, sortedTxs[i], prevHash, validTxs, invalidTxs);
      }
      assert sortedTxs[..|sortedTxs|] == sortedTxs;
      var isValid := |invalidTxs| == 0;
      report := Report(if isValid then "OK" else "KO", isValid, |txs|,
                       |validTxs|, |invalidTxs|, validTxs, invalidTxs);
      assert report == MakeReport(|txs|, Tally(prevHash, validTxs, invalidTxs));
    }
  }
}
