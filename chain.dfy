/** The chain builder of `add_transaction`: the choice of predecessor
    fingerprint and the record appended for an accepted request. */
module Chain {
  import opened Common
  import opened TextOrder
  import opened Records
  import opened Chronology

  /** The JSON body of a `POST /transactions` request; every key may be
      absent. */
  datatype Request = Request(
    p1: Option<string>,
    p2: Option<string>,
    a: Option<Amount>,
    t: Option<string>,
    signature: Option<string>)

  /** Why a request is refused (HTTP 400 in the source). */
  datatype AddError =
    | MissingFields          // "Champs requis: p1, p2, a"
    | UnknownKey(person: string)  // no usable public key registered for the sender
    | BadSignature           // "Signature invalide"

  /** `payload.get("t") or now_iso()`: an absent or empty timestamp is
      replaced by the clock reading `now`. */
  function ChosenTime(req: Request, now: string): (t: string)
    ensures req.t.Some? && req.t.value != "" ==> t == req.t.value
    ensures req.t.None? || req.t.value == "" ==> t == now
    ensures t == "" ==> now == ""
  {
    if req.t.Some? && req.t.value != "" then req.t.value else now
  }

  /** `if signature:`: a signature counts only when present and non-empty. */
  predicate Signed(req: Request)
  {
    req.signature.Some? && req.signature.value != ""
  }

  /** The predecessor fingerprint for a new record: the genesis value for an
      empty ledger; otherwise the `h` of the last record of the stable sort by
      timestamp (the latest-appended record of greatest timestamp), or the
      genesis value again if that record has no `h`. */
  function PredecessorHash(txs: seq<Tx>): (prev: string)
    ensures txs == [] ==> prev == Genesis
    ensures txs != [] ==>
      exists j :: IsLatestMaximum(txs, j) && prev == (if txs[j].h.Some? then txs[j].h.value else Genesis)
  {
    if txs == [] then Genesis
    else
      LastOfSort(txs);
      var last := SortByTime(txs)[|txs| - 1];
      if last.h.Some? then last.h.value else Genesis
  }

  /** What `add_transaction` does with a request: refuse it, or produce the
      record to append. */
  function Admit(p: Primitives, keys: map<string, string>, txs: seq<Tx>, req: Request, now: string)
    : (r: Result<Tx, AddError>)
    ensures r == Err(MissingFields) <==> !(req.p1.Some? && req.p2.Some? && req.a.Some?)
    ensures r.Err? && r.error.UnknownKey? <==>
      req.p1.Some? && req.p2.Some? && req.a.Some? && Signed(req) && !Usable(KeyOf(keys, req.p1.value))
    ensures r.Err? && r.error.UnknownKey? ==> r.error.person == req.p1.value
    ensures r == Err(BadSignature) <==>
      && req.p1.Some? && req.p2.Some? && req.a.Some? && Signed(req)
      && Usable(KeyOf(keys, req.p1.value))
      && !p.verifyPss(KeyOf(keys, req.p1.value).value,
                      SigningMessage(p, req.p1.value, req.p2.value, ChosenTime(req, now), req.a.value),
                      req.signature.value)
    ensures r.Ok? ==>
      && r.value.id == Some(|txs| + 1)
      && r.value.p1 == req.p1 && r.value.p2 == req.p2 && r.value.a == req.a
      && r.value.t == Some(ChosenTime(req, now))
      && Complete(r.value)
      && r.value.h == Some(Recomputed(p, PredecessorHash(txs), r.value))
      && (r.value.signature.Some? <==> Signed(req))
      && (r.value.signature.Some? ==> r.value.signature == req.signature)
  {
    if !(req.p1.Some? && req.p2.Some? && req.a.Some?) then Err(MissingFields)
    else
      var p1, p2, a, t := req.p1.value, req.p2.value, req.a.value, ChosenTime(req, now);
      var key := KeyOf(keys, p1);
      if Signed(req) && !Usable(key) then Err(UnknownKey(p1))
      else if Signed(req) && !p.verifyPss(key.value, SigningMessage(p, p1, p2, t, a), req.signature.value) then
        Err(BadSignature)
      else
        var h := ComputeHash(p, p1, p2, t, a, PredecessorHash(txs));
        Ok(Tx(Some(|txs| + 1), Some(p1), Some(p2), Some(t), Some(a), Some(h),
              if Signed(req) then req.signature else None))
  }

  /** The builder restarts from the genesis value whenever the
      chronologically last record has no `h`. */
  lemma LegacyLastRestartsBuilder(txs: seq<Tx>)
    requires txs != [] && SortByTime(txs)[|txs| - 1].h.None?
    ensures PredecessorHash(txs) == Genesis
  {
  }

  /** The fingerprint the builder and the audit pick differ after a legacy
      record: when the chronologically last record has no `h`, the builder
      restarts from the genesis value, while the audit keeps the fingerprint
      it was carrying. */
  lemma {:induction false} LegacyTailRestartsBuilder(txs: seq<Tx>, x: Tx)
    requires AllNoLaterThan(txs, SortKey(x))
    requires x.h.None?
    ensures PredecessorHash(txs + [x]) == Genesis
  {
    AppendLatest(txs, x);
    assert SortByTime(txs + [x])[|txs|] == x;
    LegacyLastRestartsBuilder(txs + [x]);
  }
}
