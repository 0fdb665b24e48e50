/** Transaction records, the canonical signing message and the chained
    fingerprint of `app.py`. */
module Records {
  import opened Common

  /** Amounts are integers; Python's `str(a)` rendering is `showAmount`. */
  type Amount = int

  /** The primitives the engine calls but does not define, taken as parameters:
      `sha256Hex` is SHA-256 (FIPS 180-4) of the UTF-8 bytes of a string, as
      lower-case hex; `verifyPss(pem, message, signatureB64)` is RSASSA-PSS
      verification (section 8.1 of RFC 8017, MGF1 over SHA-256, maximal salt)
      after PEM key loading and base64 decoding, with every exception turned
      into `false`; `showAmount` is Python's `str` on the JSON amount. */
  datatype Primitives = Primitives(
    sha256Hex: string -> string,
    verifyPss: (string, string, string) -> bool,
    showAmount: Amount -> string)

  /** The predecessor fingerprint of the chronologically first record. */
  const Genesis: string := "0"

  /** A stored transaction: a JSON object whose keys may each be absent
      (legacy records lack `h`, a tampered file may lack anything). */
  datatype Tx = Tx(
    id: Option<int>,
    p1: Option<string>,
    p2: Option<string>,
    t: Option<string>,
    a: Option<Amount>,
    h: Option<string>,
    signature: Option<string>)

  /** The sort key `tx.get("t", "")`. */
  function SortKey(tx: Tx): string
  {
    if tx.t.Some? then tx.t.value else ""
  }

  /** All four fields the fingerprint is computed from are present. */
  predicate Complete(tx: Tx)
  {
    tx.p1.Some? && tx.p2.Some? && tx.t.Some? && tx.a.Some?
  }

  /** `get_transaction_data_for_signing`: the string that is signed, the
      four fields joined by three `|`. */
  function SigningMessage(p: Primitives, p1: string, p2: string, t: string, a: Amount): (m: string)
    ensures |m| == |p1| + |p2| + |t| + |p.showAmount(a)| + 3
  {
    p1 + "|" + p2 + "|" + t + "|" + p.showAmount(a)
  }

  /** The four fields appear in order in the signed message, each at the
      offset left by the earlier fields and one `|` after each of them. */
  lemma SigningMessageLayout(p: Primitives, p1: string, p2: string, t: string, a: Amount)
    ensures var m := SigningMessage(p, p1, p2, t, a);
      var o2, o3 := |p1| + 1, |p1| + |p2| + 2;
      var o4 := o3 + |t| + 1;
      && m[..|p1|] == p1 && m[o2..o2 + |p2|] == p2 && m[o3..o3 + |t|] == t && m[o4..] == p.showAmount(a)
      && m[o2 - 1] == '|' && m[o3 - 1] == '|' && m[o4 - 1] == '|'
  {
  }

  /** `compute_hash`: SHA-256 of `p1|p2|t|a|prev_hash`. The source formats
      this string on its own; the contract says it is the signing message
      followed by `|` and the predecessor fingerprint. */
  function ComputeHash(p: Primitives, p1: string, p2: string, t: string, a: Amount, prevHash: string): (h: string)
    ensures h == p.sha256Hex(SigningMessage(p, p1, p2, t, a) + "|" + prevHash)
  {
    var data := p1 + "|" + p2 + "|" + t + "|" + p.showAmount(a) + "|" + prevHash;
    assert data == SigningMessage(p, p1, p2, t, a) + "|" + prevHash;
    p.sha256Hex(data)
  }

  /** The signing message of a record that has all four fields. */
  function MessageOf(p: Primitives, tx: Tx): string
    requires Complete(tx)
  {
    SigningMessage(p, tx.p1.value, tx.p2.value, tx.t.value, tx.a.value)
  }

  /** The recomputed fingerprint of a complete record on `prev`. */
  function Recomputed(p: Primitives, prev: string, tx: Tx): string
    requires Complete(tx)
  {
    ComputeHash(p, tx.p1.value, tx.p2.value, tx.t.value, tx.a.value, prev)
  }

  /** `get_public_key`: the registered key, if any. */
  function KeyOf(keys: map<string, string>, person: string): (k: Option<string>)
    ensures k.Some? <==> person in keys
    ensures k.Some? ==> k.value == keys[person]
  {
    if person in keys then Some(keys[person]) else None
  }

  /** Python truthiness of the looked-up key: `None` and `""` both count as
      "no key registered". */
  predicate Usable(k: Option<string>)
  {
    k.Some? && k.value != ""
  }

  /** Collision-freedom of the hash, assumed only by the tamper lemmas. */
  ghost predicate HashInjective(p: Primitives)
  {
    forall x, y :: p.sha256Hex(x) == p.sha256Hex(y) ==> x == y
  }

  /** Distinct amounts render differently. */
  ghost predicate RenderInjective(p: Primitives)
  {
    forall x, y :: p.showAmount(x) == p.showAmount(y) ==> x == y
  }

  /** A field free of the `|` delimiter. */
  predicate BarFree(s: string)
  {
    '|' !in s
  }

  /** Position of the first `|` in a string that has one. */
  function FirstBar(s: string): (k: nat)
    requires '|' in s
    ensures k < |s| && s[k] == '|' && BarFree(s[..k])
  {
    if s[0] == '|' then 0 else
      assert s == [s[0]] + s[1..];
      var k := 1 + FirstBar(s[1..]);
      assert s[..k] == [s[0]] + s[1..][..k - 1];
      k
  }

  lemma {:induction false} FirstBarAfterHead(a: string, b: string)
    requires BarFree(a)
    ensures FirstBar(a + "|" + b) == |a|
    decreases |a|
  {
    var s := a + "|" + b;
    if a != [] {
      assert s[1..] == a[1..] + "|" + b;
      FirstBarAfterHead(a[1..], b);
    }
  }

  /** A `|`-free head is recovered from `head|rest`. */
  lemma SplitAtFirstBar(a: string, b: string, a': string, b': string)
    requires BarFree(a) && BarFree(a')
    requires a + "|" + b == a' + "|" + b'
    ensures a == a' && b == b'
  {
    var s := a + "|" + b;
    FirstBarAfterHead(a, b);
    FirstBarAfterHead(a', b');
    assert a == s[..|a|] == a';
    assert b == s[|a| + 1..] == b';
  }

  /** Two strings with a common prefix are equal exactly when their tails are. */
  lemma CancelPrefix(x: string, s: string, s': string)
    ensures x + s == x + s' <==> s == s'
  {
    if x + s == x + s' {
      assert s == (x + s)[|x|..];
      assert s' == (x + s')[|x|..];
    }
  }

  /** Two strings with a common suffix are equal exactly when their heads are. */
  lemma CancelSuffix(s: string, s': string, x: string)
    ensures s + x == s' + x <==> s == s'
  {
    if s + x == s' + x {
      assert |s| == |s'|;
      assert s == (s + x)[..|s|];
      assert s' == (s' + x)[..|s'|];
    }
  }

  /** The fingerprint input `m|prev` determines `m` once `prev` is fixed, and
      `prev` once `m` is fixed. */
  lemma {:induction false} HashInputCancels(m: string, m': string, prev: string, prev': string)
    ensures prev == prev' ==> (m + "|" + prev == m' + "|" + prev' <==> m == m')
    ensures m == m' ==> (m + "|" + prev == m' + "|" + prev' <==> prev == prev')
  {
    if prev == prev' && m + "|" + prev == m' + "|" + prev' {
      var s := m + "|" + prev;
      assert |m| == |m'|;
      assert m == s[..|m|] == m';
    }
    if m == m' {
      CancelPrefix(m + "|", prev, prev');
    }
  }

  /** With `|`-free names and timestamp, the signed message determines every
      field, the amount through its rendering. */
  lemma MessageDeterminesFields(p: Primitives, p1: string, p2: string, t: string, a: Amount,
                                q1: string, q2: string, u: string, b: Amount)
    requires BarFree(p1) && BarFree(p2) && BarFree(t)
    requires BarFree(q1) && BarFree(q2) && BarFree(u)
    requires SigningMessage(p, p1, p2, t, a) == SigningMessage(p, q1, q2, u, b)
    ensures p1 == q1 && p2 == q2 && t == u
    ensures p.showAmount(a) == p.showAmount(b)
    ensures RenderInjective(p) ==> a == b
  {
    var ra, rb := p.showAmount(a), p.showAmount(b);
    assert SigningMessage(p, p1, p2, t, a) == p1 + "|" + (p2 + "|" + t + "|" + ra);
    assert SigningMessage(p, q1, q2, u, b) == q1 + "|" + (q2 + "|" + u + "|" + rb);
    SplitAtFirstBar(p1, p2 + "|" + t + "|" + ra, q1, q2 + "|" + u + "|" + rb);
    assert p2 + "|" + t + "|" + ra == p2 + "|" + (t + "|" + ra);
    assert q2 + "|" + u + "|" + rb == q2 + "|" + (u + "|" + rb);
    SplitAtFirstBar(p2, t + "|" + ra, q2, u + "|" + rb);
    SplitAtFirstBar(t, ra, u, rb);
  }

  /** The delimiter is not escaped: moving a `|` from the sender's name into
      the recipient's leaves the signed message unchanged. */
  lemma DelimiterAmbiguity(p: Primitives, x: string, y: string, z: string, t: string, a: Amount)
    ensures SigningMessage(p, x + "|" + y, z, t, a) == SigningMessage(p, x, y + "|" + z, t, a)
  {
  }
}
