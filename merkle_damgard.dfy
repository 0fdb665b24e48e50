/** The toy Merkle-Damgard hashes `XD`, `XDD` and `XDDD`: pad the message
    bytes to a multiple of four, then fold `comp` over the big-endian 4-byte
    blocks starting from `IV`. They differ only in their padding. */
module MerkleDamgard {
  import opened Common
  import opened Compression

  type byte = x: int | 0 <= x < 256

  /** `b'\x00' * k`. */
  function Zeros(k: nat): (z: seq<byte>)
    ensures |z| == k && forall i :: 0 <= i < k ==> z[i] == 0
  {
    seq(k, _ => 0)
  }

  /** `int.from_bytes(b, byteorder='big')` on four bytes. */
  function Word(b: seq<byte>): (w: nat)
    requires |b| == 4
    ensures w < 0x1_0000_0000
  {
    (b[0] as int) * 0x100_0000 + (b[1] as int) * 0x1_0000 + (b[2] as int) * 0x100 + b[3] as int
  }

  /** `n.to_bytes(4, byteorder='big')`, which raises `OverflowError` when `n`
      does not fit in four bytes. */
  function LengthBytes(n: nat): (r: Option<seq<byte>>)
    ensures r.None? <==> n >= 0x1_0000_0000
    ensures r.Some? ==> |r.value| == 4 && Word(r.value) == n
  {
    if n >= 0x1_0000_0000 then None
    else
      var n1 := n / 0x100;
      var n2 := n1 / 0x100;
      var r := [n2 / 0x100, n2 % 0x100, n1 % 0x100, n % 0x100];
      assert n == 0x100 * n1 + n % 0x100;
      assert n1 == 0x100 * n2 + n1 % 0x100;
      assert n2 == 0x100 * (n2 / 0x100) + n2 % 0x100;
      assert Word(r) == 0x100 * (0x100 * (0x100 * (n2 / 0x100) + n2 % 0x100) + n1 % 0x100) + n % 0x100;
      Some(r)
  }

  /** The fold of `comp` over the blocks of a padded message, from `IV`. */
  function Absorb(padded: seq<byte>): (h: nat)
    requires |padded| % 4 == 0
    ensures h < 0x1_0000_0000
    decreases |padded|
  {
    if padded == [] then IV
    else Comp(Absorb(padded[..|padded| - 4]), Word(padded[|padded| - 4..]))
  }

  /** The blocks XORed together, without any mask. */
  function XorOfBlocks(padded: seq<byte>): nat
    requires |padded| % 4 == 0
    decreases |padded|
  {
    if padded == [] then 0
    else Xor(XorOfBlocks(padded[..|padded| - 4]), Word(padded[|padded| - 4..]))
  }

  lemma {:induction false} XorOfBlocksBound(padded: seq<byte>)
    requires |padded| % 4 == 0
    ensures XorOfBlocks(padded) < 0x1_0000_0000
    decreases |padded|
  {
    Pow2ThirtyTwo();
    if padded != [] {
      XorOfBlocksBound(padded[..|padded| - 4]);
      XorBound(XorOfBlocks(padded[..|padded| - 4]), Word(padded[|padded| - 4..]), 32);
    }
  }

  /** The digest is `IV` XORed with every block, and is below 2^32. */
  lemma {:induction false} AbsorbIsIvXorBlocks(padded: seq<byte>)
    requires |padded| % 4 == 0
    ensures Absorb(padded) == Xor(IV, XorOfBlocks(padded))
    decreases |padded|
  {
    if padded == [] {
      XorUnits(IV);
    } else {
      var init, w := padded[..|padded| - 4], Word(padded[|padded| - 4..]);
      AbsorbIsIvXorBlocks(init);
      CompOfWords(Absorb(init), w);
      XorAssociates(IV, XorOfBlocks(init), w);
    }
  }

  /** Absorbing one more block. */
  lemma AbsorbStep(padded: seq<byte>, i: nat)
    requires i % 4 == 0 && i + 4 <= |padded|
    ensures Absorb(padded[..i + 4]) == Comp(Absorb(padded[..i]), Word(padded[i..i + 4]))
  {
    var p := padded[..i + 4];
    assert p[..|p| - 4] == padded[..i];
    assert p[|p| - 4..] == padded[i..i + 4];
  }

  lemma NextBlockFits(n: nat, k: nat)
    requires n % 4 == 0 && 4 * k < n
    ensures 4 * k + 4 <= n && (4 * k) % 4 == 0 && (4 * k + 4) / 4 == k + 1
  {
  }

  /** `while len(bloc) < 4: bloc += b'\x00'`: zero bytes appended until the
      block is four bytes long, one per iteration. */
  method TopUp(bloc: seq<byte>) returns (r: seq<byte>, ghost steps: nat)
    ensures |bloc| < 4 ==> r == bloc + Zeros(4 - |bloc|) && steps == 4 - |bloc|
    ensures |bloc| >= 4 ==> r == bloc && steps == 0
  {
    r, steps := bloc, 0;
    while |r| < 4
      invariant |bloc| < 4 ==> |r| <= 4 && r == bloc + Zeros(|r| - |bloc|) && steps == |r| - |bloc|
      invariant |bloc| >= 4 ==> r == bloc && steps == 0
      decreases 4 - |r|
    {
      r := r + [0];
      steps := steps + 1;
    }
  }

  /** The block loop shared by the three hashes: `for i in range(0,
      len(padded), 4)`, slicing a block, topping it up with zero bytes while
      it is short, and folding `comp`. On a padded message every block is
      already four bytes long: the top-up loop never runs, and `comp` is
      called once per block. */
  method AbsorbBlocks(padded: seq<byte>) returns (h: nat, ghost compCalls: nat, ghost topUps: nat)
    requires |padded| % 4 == 0
    ensures h == Absorb(padded)
    ensures compCalls == |padded| / 4
    ensures topUps == 0
  {
    h := IV;
    compCalls, topUps := 0, 0;
    var i := 0;
    while i < |padded|
      invariant 0 <= i <= |padded| && i == 4 * compCalls
      invariant h == Absorb(padded[..i])
      invariant topUps == 0
    {
      NextBlockFits(|padded|, compCalls);
      var end := if i + 4 <= |padded| then i + 4 else |padded|;
      var bloc := padded[i..end];
      ghost var steps;
      bloc, steps := TopUp(bloc);
      topUps := topUps + steps;
      assert bloc == padded[i..i + 4];
      AbsorbStep(padded, i);
      h := Comp(h, Word(bloc));
      compCalls := compCalls + 1;
      i := i + 4;
    }
    assert i == |padded| && padded[..i] == padded;
  }

  /** `XD`'s padding: zero bytes up to the next multiple of four. */
  function PadZeros(m: seq<byte>): (r: seq<byte>)
    ensures |r| % 4 == 0 && |m| <= |r| < |m| + 4
    ensures r == m + Zeros(|r| - |m|)
  {
    m + Zeros((4 - |m| % 4) % 4)
  }

  /** `XDD`'s padding: one `0x80` byte, then zero bytes up to the next
      multiple of four. */
  function PadOneZeros(m: seq<byte>): (r: seq<byte>)
    ensures |r| % 4 == 0 && |m| < |r| <= |m| + 4
    ensures r == m + [0x80] + Zeros(|r| - |m| - 1)
  {
    var marked := m + [0x80];
    marked + Zeros((4 - |marked| % 4) % 4)
  }

  /** `XDDD`'s padding: one `0x80` byte, zero bytes, then the message's byte
      length on four big-endian bytes; `None` when the length does not fit. */
  function PadWithLength(m: seq<byte>): (r: Option<seq<byte>>)
    ensures r.None? <==> |m| >= 0x1_0000_0000
    ensures r.Some? ==>
      && |r.value| % 4 == 0 && |m| + 5 <= |r.value| <= |m| + 8
      && r.value[..|r.value| - 4] == m + [0x80] + Zeros(|r.value| - |m| - 5)
      && Word(r.value[|r.value| - 4..]) == |m|
  {
    var marked := m + [0x80];
    var body := marked + Zeros((4 - (|marked| + 4) % 4) % 4);
    var len := LengthBytes(|m|);
    if len.None? then None
    else
      var r := body + len.value;
      assert r[..|r| - 4] == body && r[|r| - 4..] == len.value;
      Some(r)
  }

  /** The digest `XD` computes. */
  function XdDigest(m: seq<byte>): nat
  {
    Absorb(PadZeros(m))
  }

  /** The digest `XDD` computes. */
  function XddDigest(m: seq<byte>): nat
  {
    Absorb(PadOneZeros(m))
  }

  /** The digest `XDDD` computes, or `None` for the overflow. */
  function XdddDigest(m: seq<byte>): Option<nat>
  {
    var padded := PadWithLength(m);
    if padded.None? then None else Some(Absorb(padded.value))
  }

  /** `XD`. */
  method XD(m: seq<byte>) returns (h: nat)
    ensures h == XdDigest(m)
  {
    var paddingLength := (4 - |m| % 4) % 4;
    var padded := m + Zeros(paddingLength);
    assert padded == PadZeros(m);
    ghost var calls, topUps;
    h, calls, topUps := AbsorbBlocks(padded);
  }

  /** `XDD`. */
  method XDD(m: seq<byte>) returns (h: nat)
    ensures h == XddDigest(m)
  {
    var bytes := m;
    bytes := bytes + [0x80];
    var paddingLength := (4 - |bytes| % 4) % 4;
    var padded := bytes + Zeros(paddingLength);
    assert padded == PadOneZeros(m);
    ghost var calls, topUps;
    h, calls, topUps := AbsorbBlocks(padded);
  }

  /** `XDDD`; `None` where `to_bytes(4)` raises. */
  method XDDD(m: seq<byte>) returns (h: Option<nat>)
    ensures h == XdddDigest(m)
  {
    var originalLength := |m|;
    var bytes := m;
    bytes := bytes + [0x80];
    var paddingLength := (4 - (|bytes| + 4) % 4) % 4;
    var padded := bytes + Zeros(paddingLength);
    var lengthBytes := LengthBytes(originalLength);
    if lengthBytes.None? {
      return None;
    }
    padded := padded + lengthBytes.value;
    ghost var calls, topUps;
    var digest;
    digest, calls, topUps := AbsorbBlocks(padded);
    h := Some(digest);
  }

  /** The empty message hashes to `IV` under `XD`; every digest is a 32-bit
      value. */
  lemma DigestFacts(m: seq<byte>)
    ensures XdDigest([]) == IV
    ensures XdDigest(m) < 0x1_0000_0000 && XddDigest(m) < 0x1_0000_0000
    ensures XdddDigest(m).Some? ==> XdddDigest(m).value < 0x1_0000_0000
  {
    assert PadZeros([]) == [];
    AbsorbIsIvXorBlocks(PadZeros(m));
    AbsorbIsIvXorBlocks(PadOneZeros(m));
    if PadWithLength(m).Some? {
      AbsorbIsIvXorBlocks(PadWithLength(m).value);
    }
  }

  /** Zero padding is ambiguous: a message and the same message extended
      with zero bytes up to the next multiple of four have the same `XD`
      digest. */
  lemma ZeroPaddingCollision(m: seq<byte>)
    ensures var k := (4 - |m| % 4) % 4;
      && (k > 0 ==> m + Zeros(k) != m)
      && XdDigest(m + Zeros(k)) == XdDigest(m)
  {
    var k := (4 - |m| % 4) % 4;
    var longer := m + Zeros(k);
    assert PadZeros(longer) == longer + Zeros(0);
    assert longer + Zeros(0) == PadZeros(m);
  }

  /** The `0x80` marker makes `XDD`'s padding injective: two messages with
      the same padded form are equal. */
  lemma OneZerosPaddingInjective(m: seq<byte>, m': seq<byte>)
    requires PadOneZeros(m) == PadOneZeros(m')
    ensures m == m'
  {
    var r := PadOneZeros(m);
    assert forall j :: |m| < j < |r| ==> r[j] == 0;
    assert forall j :: |m'| < j < |r| ==> r[j] == 0;
    assert r[|m|] == 0x80 && r[|m'|] == 0x80;
    assert m == r[..|m|] && m' == r[..|m'|];
  }

  /** The length field makes `XDDD`'s padding injective. */
  lemma LengthPaddingInjective(m: seq<byte>, m': seq<byte>)
    requires PadWithLength(m).Some? && PadWithLength(m) == PadWithLength(m')
    ensures m == m'
  {
    var r := PadWithLength(m).value;
    assert |m| == Word(r[|r| - 4..]) == |m'|;
    assert m == r[..|r| - 4][..|m|] && m' == r[..|r| - 4][..|m'|];
  }

  /** The XOR of the blocks of a concatenation. */
  lemma {:induction false} XorOfBlocksConcat(u: seq<byte>, v: seq<byte>)
    requires |u| % 4 == 0 && |v| % 4 == 0
    ensures XorOfBlocks(u + v) == Xor(XorOfBlocks(u), XorOfBlocks(v))
    decreases |v|
  {
    if v == [] {
      assert u + v == u;
      XorUnits(XorOfBlocks(u));
    } else {
      var init, last := v[..|v| - 4], v[|v| - 4..];
      assert (u + v)[..|u + v| - 4] == u + init;
      assert (u + v)[|u + v| - 4..] == last;
      XorOfBlocksConcat(u, init);
      XorAssociates(XorOfBlocks(u), XorOfBlocks(init), Word(last));
    }
  }

  lemma WholeBlocks(x: nat, y: nat)
    requires x % 4 == 0 && y % 4 == 0
    ensures (x + y) % 4 == 0
  {
    assert x + y == 4 * (x / 4 + y / 4);
  }

  /** The XOR of the blocks of three concatenated pieces. */
  lemma XorOfBlocksThree(a: seq<byte>, u: seq<byte>, b: seq<byte>)
    requires |a| % 4 == 0 && |u| % 4 == 0 && |b| % 4 == 0
    ensures |a + u + b| % 4 == 0
    ensures XorOfBlocks(a + u + b) == Xor(Xor(XorOfBlocks(a), XorOfBlocks(u)), XorOfBlocks(b))
  {
    var au := a + u;
    WholeBlocks(|a|, |u|);
    WholeBlocks(|au|, |b|);
    XorOfBlocksConcat(a, u);
    XorOfBlocksConcat(au, b);
  }

  /** Two blocks XOR to the same value in either order. */
  lemma PairCommutes(x: seq<byte>, y: seq<byte>)
    requires |x| == 4 && |y| == 4
    ensures XorOfBlocks(x + y) == XorOfBlocks(y + x)
  {
    XorOfBlocksConcat(x, y);
    XorOfBlocksConcat(y, x);
    XorCommutes(XorOfBlocks(x), XorOfBlocks(y));
  }

  /** The fold does not depend on the order of the blocks: swapping two
      adjacent blocks of a padded message leaves the digest unchanged. */
  lemma SwappedBlocksCollide(a: seq<byte>, x: seq<byte>, y: seq<byte>, b: seq<byte>)
    requires |a| % 4 == 0 && |x| == 4 && |y| == 4 && |b| % 4 == 0
    ensures |a + (x + y) + b| % 4 == 0 && |a + (y + x) + b| % 4 == 0
    ensures Absorb(a + (x + y) + b) == Absorb(a + (y + x) + b)
  {
    var xy, yx := x + y, y + x;
    PairCommutes(x, y);
    XorOfBlocksThree(a, xy, b);
    XorOfBlocksThree(a, yx, b);
    AbsorbIsIvXorBlocks(a + xy + b);
    AbsorbIsIvXorBlocks(a + yx + b);
  }

  /** Two different blocks in either order are two different messages. */
  lemma SwapChangesMessage(x: seq<byte>, y: seq<byte>)
    requires |x| == 4 && |y| == 4 && x != y
    ensures x + y != y + x
  {
    assert (x + y)[..4] == x && (y + x)[..4] == y;
  }

  /** `XD` collides on any two-block message and its blocks swapped. */
  lemma XdSwapCollision(x: seq<byte>, y: seq<byte>)
    requires |x| == 4 && |y| == 4
    ensures XdDigest(x + y) == XdDigest(y + x)
  {
    var e: seq<byte> := [];
    var xy, yx := x + y, y + x;
    assert PadZeros(xy) == e + xy + e;
    assert PadZeros(yx) == e + yx + e;
    SwappedBlocksCollide(e, x, y, e);
  }

  /** So does `XDD`. */
  lemma XddSwapCollision(x: seq<byte>, y: seq<byte>)
    requires |x| == 4 && |y| == 4
    ensures XddDigest(x + y) == XddDigest(y + x)
  {
    var e: seq<byte> := [];
    var xy, yx := x + y, y + x;
    var tail := PadOneZeros(xy)[8..];
    assert PadOneZeros(xy) == e + xy + tail;
    assert PadOneZeros(yx) == e + yx + tail;
    SwappedBlocksCollide(e, x, y, tail);
  }

  /** What `XDDD` appends to a message of `n` bytes. */
  function LengthTail(n: nat): seq<byte>
    requires n < 0x1_0000_0000
  {
    [0x80] + Zeros((4 - (n + 1 + 4) % 4) % 4) + LengthBytes(n).value
  }

  /** `XDDD`'s padding is the message followed by a tail that depends only
      on its length. */
  lemma LengthPaddingShape(m: seq<byte>)
    requires |m| < 0x1_0000_0000
    ensures PadWithLength(m) == Some(m + LengthTail(|m|))
  {
    var marked := m + [0x80];
    var zeros := Zeros((4 - (|marked| + 4) % 4) % 4);
    var len := LengthBytes(|m|).value;
    assert marked + zeros + len == m + ([0x80] + zeros + len);
  }

  /** Even with the length field, so does `XDDD`. */
  lemma XdddSwapCollision(x: seq<byte>, y: seq<byte>)
    requires |x| == 4 && |y| == 4
    ensures XdddDigest(x + y).Some?
    ensures XdddDigest(x + y) == XdddDigest(y + x)
  {
    var e: seq<byte> := [];
    var xy, yx := x + y, y + x;
    LengthPaddingShape(xy);
    LengthPaddingShape(yx);
    var tail := LengthTail(8);
    assert PadWithLength(xy).value == e + xy + tail;
    assert PadWithLength(yx).value == e + yx + tail;
    SwappedBlocksCollide(e, x, y, tail);
  }
}
