/** OBJECT IDENTIFIER content (X.690 section 8.19) as `Decoder::dec_oid`
    reports it. Each component is a run of base-128 groups ended by the first
    byte whose high bit is clear; its groups are then packed in place into
    as many bytes as it had encoded bytes, big-endian. The first encoded
    component is not split into the first two arcs, and the packing shifts
    by 7, 6, ..., 1 and then 7 again, which is exact for components of up to
    eight groups. */
module BerOid {
  import opened Bits
  import opened BerTypes

  /** One component's groups (high bit removed) and the offset after them,
      or truncation when the data ends before a terminating byte. */
  datatype VlqResult = Vlq(groups: seq<byte>, next: nat) | VlqTruncated

  /** The inner loop of `dec_oid`: `b & ~0x80` is kept and the loop stops
      after the first byte with `b & 0x80` clear. */
  function VlqStep(data: seq<byte>, off: nat): (r: VlqResult)
    requires off <= |data|
    ensures r.Vlq? ==> off < r.next <= |data| && |r.groups| == r.next - off
    decreases |data| - off
  {
    if |data| - off < 1 then VlqTruncated
    else
      var b := data[off];
      var g: byte := BitAnd(b, 0x7F);
      if BitAnd(b, 0x80) == 0 then Vlq([g], off + 1)
      else
        match VlqStep(data, off + 1)
        case VlqTruncated => VlqTruncated
        case Vlq(gs, n) => Vlq([g] + gs, n)
  }

  /** A component ends at the first byte below 0x80, every byte before it is
      a continuation byte, and each group is its byte modulo 128; with no
      byte below 0x80 left the read is truncated. */
  lemma {:induction false} VlqShape(data: seq<byte>, off: nat)
    requires off <= |data|
    decreases |data| - off
    ensures VlqStep(data, off).VlqTruncated? <==> forall k :: off <= k < |data| ==> data[k] >= 0x80
    ensures var r := VlqStep(data, off);
      r.Vlq? ==>
        && data[r.next - 1] < 0x80
        && (forall k :: off <= k < r.next - 1 ==> data[k] >= 0x80)
        && (forall k :: 0 <= k < |r.groups| ==> r.groups[k] == data[off + k] % 0x80)
  {
    if off < |data| {
      var b := data[off];
      ByteParts(b);
      if b >= 0x80 {
        VlqShape(data, off + 1);
        var r := VlqStep(data, off);
        if r.Vlq? {
          var r1 := VlqStep(data, off + 1);
          assert r.groups == [b % 0x80] + r1.groups;
        }
      }
    }
  }

  /** The shift `h` of the repacking loop after k steps: 7, 6, ..., 1, 7, ... */
  function Shift(k: nat): (h: nat)
    ensures 1 <= h <= 7
  {
    if k < 7 then 7 - k else Shift(k - 7)
  }

  /** `pb` for position j: the group before it, or 0 at the front. */
  function Prev(g: seq<byte>, j: nat): byte
    requires j <= |g|
  {
    if j >= 1 then g[j - 1] else 0
  }

  /** The bits `b` carried into the step that writes position |g| - 1 - k:
      the last group at first, then what `pb >> (8 - h)` kept of the group
      before the previous position. */
  function Carry(g: seq<byte>, k: nat): nat
    requires 1 <= |g| && k <= |g|
  {
    if k == 0 then g[|g| - 1]
    else Shr(Prev(g, |g| - k), 8 - Shift(k - 1))
  }

  /** `component[j] = (pb << h) | b`, stored into a byte. */
  function RepackAt(g: seq<byte>, j: nat): byte
    requires j < |g|
  {
    var k := |g| - 1 - j;
    BitOr(Prev(g, j) * Pow2(Shift(k)), Carry(g, k)) % 0x100
  }

  /** The component after the do-while loop has rewritten every position,
      from the last down to the first. */
  function Repack(g: seq<byte>): (r: seq<byte>)
    requires 1 <= |g|
    ensures |r| == |g|
  {
    seq(|g|, j requires 0 <= j < |g| => RepackAt(g, j))
  }

  /** A one-group component is reported unchanged. */
  lemma RepackSingle(g: seq<byte>)
    requires |g| == 1
    ensures Repack(g) == g
  {
    assert Repack(g)[0] == BitOr(0, g[0]) % 0x100;
  }

  /** One step of the repacking below the eighth: the byte written and the
      bits carried on together hold `(a << (7 - k)) + b`. */
  lemma RepackByte(a: nat, b: nat, k: nat)
    requires k <= 6 && a < 0x80 && b < Pow2(7 - k)
    ensures BitOr(a * Pow2(7 - k), b) % 0x100 + 0x100 * (a / Pow2(k + 1)) == a * Pow2(7 - k) + b
  {
    OrShifted(a, 7 - k, b);
    Pow2Split(k + 1, 7 - k, 8);
    Pow2Of8();
    ByteSplit(a, b, Pow2(7 - k), Pow2(k + 1));
  }

  /** Splitting a * p + b into its low byte and the rest, when q * p == 256. */
  lemma ByteSplit(a: nat, b: nat, p: nat, q: nat)
    requires q >= 1 && p >= 1 && q * p == 0x100 && b < p
    ensures (a * p + b) % 0x100 + 0x100 * (a / q) == a * p + b
  {
    var hi, lo := a / q, a % q;
    Spread(q, hi, lo, p);
    var x := a * p + b;
    var r := lo * p + b;
    assert x == 0x100 * hi + r;
    MulLe(lo, q - 1, p);
    MulDistrib(q, -1, p);
    DivModUnique(x, 0x100, hi, r);
  }

  lemma Spread(q: int, hi: int, lo: int, p: int)
    ensures (q * hi + lo) * p == hi * (q * p) + lo * p
  {
    MulDistrib(q * hi, lo, p);
    MulAssoc(q, hi, p);
    assert q * (hi * p) == hi * (q * p);
  }

  /** While at most seven groups have been handled, the carry is below
      2^(7 - k), and it is the previous group shifted right by k + 1. */
  lemma CarryBound(g: seq<byte>, k: nat)
    requires 1 <= |g| && k <= |g| && k <= 7
    requires forall i :: 0 <= i < |g| ==> g[i] < 0x80
    ensures Carry(g, k) < Pow2(7 - k)
  {
    if k == 0 {
      assert Pow2(7) == 0x80;
    } else {
      assert Shift(k - 1) == 8 - k;
      Pow2Split(7 - k, k, 7);
      assert Pow2(7) == 0x80;
      assert Prev(g, |g| - k) < Pow2(7 - k) * Pow2(k);
      DivBelow(Prev(g, |g| - k), Pow2(k), Pow2(7 - k));
    }
  }

  lemma Regroup(rj: int, c1: int, a: int, p: int, c0: int, pk: int, dr: int)
    requires rj + 0x100 * c1 == a * p + c0
    ensures rj * pk + dr + c1 * (pk * 0x100) == a * (pk * p) + (dr + c0 * pk)
  {
    assert rj * pk + c1 * (pk * 0x100) == (rj + 0x100 * c1) * pk;
    assert (a * p + c0) * pk == a * (pk * p) + c0 * pk;
  }

  /** After k steps, the bytes written so far plus the pending carry hold
      the value of the last k groups (with a 0 group in front). */
  lemma {:induction false} RepackSuffix(g: seq<byte>, k: nat)
    requires 1 <= |g| <= 8 && k <= |g|
    requires forall i :: 0 <= i < |g| ==> g[i] < 0x80
    ensures Digits(Repack(g)[|g| - k..], 8) + Carry(g, k) * Pow2(8 * k) == Digits(([0] + g)[|g| - k..], 7)
  {
    var n := |g|;
    var R := Repack(g);
    var G: seq<byte> := [0] + g;
    if k == 0 {
      RepackSuffixZero(g);
    } else {
      var k0 := k - 1;
      var j := n - 1 - k0;
      RepackSuffix(g, k0);
      var rs, gs := R[n - k0..], G[n - k0..];
      SliceCons(R, j);
      SliceCons(G, j);
      assert G[j] == Prev(g, j);
      RepackStep(g, k0, rs, gs, Digits(rs, 8), Digits(gs, 7));
    }
  }

  lemma RepackSuffixZero(g: seq<byte>)
    requires 1 <= |g|
    ensures Digits(Repack(g)[|g|..], 8) + Carry(g, 0) * Pow2(0) == Digits(([0] + g)[|g|..], 7)
  {
    var n := |g|;
    assert Repack(g)[n..] == [];
    assert ([0] + g)[n..] == [g[n - 1]];
    assert Pow2(0) == 1;
    assert Digits([g[n - 1]], 7) == Digits([], 7) * Pow2(7) + g[n - 1];
  }

  lemma SliceCons(s: seq<byte>, j: nat)
    requires j < |s|
    ensures s[j..] == [s[j]] + s[j + 1..]
  {
  }

  /** The step of RepackSuffix from k0 to k0 + 1 handled positions. */
  lemma RepackStep(g: seq<byte>, k0: nat, rs: seq<byte>, gs: seq<byte>, dr: nat, dg: nat)
    requires 1 <= |g| <= 8 && k0 < |g|
    requires forall i :: 0 <= i < |g| ==> g[i] < 0x80
    requires |rs| == k0 && |gs| == k0 + 1 && dr == Digits(rs, 8) && dg == Digits(gs, 7)
    requires dr + Carry(g, k0) * Pow2(8 * k0) == dg
    ensures var j := |g| - 1 - k0;
      Digits([RepackAt(g, j)] + rs, 8) + Carry(g, k0 + 1) * Pow2(8 * (k0 + 1))
        == Digits([Prev(g, j)] + gs, 7)
  {
    var j := |g| - 1 - k0;
    DigitsCons(RepackAt(g, j), rs, 8);
    DigitsCons(Prev(g, j), gs, 7);
    Pow2Split(8 * k0, 8, 8 * (k0 + 1));
    Pow2Of64();
    assert 8 * (k0 + 1) == 8 * k0 + 8;
    CarryBound(g, k0);
    if k0 <= 6 {
      RepackStepLow(g, k0, dr);
    } else {
      RepackStepEighth(g);
    }
  }

  /** Steps 1 to 7 write a byte and carry bits on, as RepackByte says. */
  lemma RepackStepLow(g: seq<byte>, k0: nat, dr: nat)
    requires 1 <= |g| && k0 < |g| && k0 <= 6
    requires forall i :: 0 <= i < |g| ==> g[i] < 0x80
    requires Carry(g, k0) < Pow2(7 - k0)
    ensures var j := |g| - 1 - k0;
      RepackAt(g, j) * Pow2(8 * k0) + dr + Carry(g, k0 + 1) * (Pow2(8 * k0) * 0x100)
        == Prev(g, j) * Pow2(7 * (k0 + 1)) + (dr + Carry(g, k0) * Pow2(8 * k0))
  {
    var k := k0 + 1;
    var j := |g| - 1 - k0;
    var a, p := Prev(g, j), Pow2(7 - k0);
    var c0, c1 := Carry(g, k0), Carry(g, k);
    var pk := Pow2(8 * k0);
    assert Shift(k0) == 7 - k0;
    assert RepackAt(g, j) == BitOr(a * p, c0) % 0x100;
    assert c1 == a / Pow2(k0 + 1);
    RepackByte(a, c0, k0);
    Pow2Split(8 * k0, 7 - k0, 7 * (k0 + 1));
    assert 7 * k == 8 * k0 + (7 - k0);
    Regroup(RepackAt(g, j), c1, a, p, c0, pk, dr);
  }

  /** The eighth step from the right writes the leading zero group and
      carries nothing. */
  lemma RepackStepEighth(g: seq<byte>)
    requires |g| == 8
    requires forall i :: 0 <= i < |g| ==> g[i] < 0x80
    requires Carry(g, 7) < Pow2(0)
    ensures RepackAt(g, 0) == 0 && Prev(g, 0) == 0 && Carry(g, 8) == 0 && Carry(g, 7) == 0
  {
    assert Carry(g, 8) == Shr(0, 8 - Shift(7)) == 0;
    assert RepackAt(g, 0) == BitOr(0, 0) % 0x100;
  }

  /** Radix correctness: a component of at most eight groups is reported as
      the big-endian bytes of the number its base-128 groups encode. */
  lemma RepackValue(g: seq<byte>)
    requires 1 <= |g| <= 8
    requires forall i :: 0 <= i < |g| ==> g[i] < 0x80
    ensures Digits(Repack(g), 8) == Digits(g, 7)
  {
    RepackWhole(g);
    CarryDone(g);
    DigitsCons(0, g, 7);
  }

  lemma RepackWhole(g: seq<byte>)
    requires 1 <= |g| <= 8
    requires forall i :: 0 <= i < |g| ==> g[i] < 0x80
    ensures Digits(Repack(g), 8) + Carry(g, |g|) * Pow2(8 * |g|) == Digits([0] + g, 7)
  {
    var r := Repack(g);
    RepackSuffix(g, |g|);
    assert r[0..] == r;
    assert ([0] + g)[0..] == [0] + g;
  }

  /** Once every position is written nothing is left to carry. */
  lemma CarryDone(g: seq<byte>)
    requires 1 <= |g|
    ensures Carry(g, |g|) == 0
  {
    assert Prev(g, 0) == 0;
    assert Shr(0, 8 - Shift(|g| - 1)) == 0;
  }

  /** The packing is wrong from the ninth group on: the arc 2^56, whose
      groups are 1 and eight zeros, is reported as bytes holding 2^63. */
  lemma RepackNineGroups()
    ensures var g: seq<byte> := [1, 0, 0, 0, 0, 0, 0, 0, 0];
      && Repack(g) == [0, 0x80, 0, 0, 0, 0, 0, 0, 0]
      && Digits(g, 7) == Pow2(56)
      && Digits(Repack(g), 8) == Pow2(63)
      && Digits(Repack(g), 8) != Digits(g, 7)
  {
    NineRepacked();
    NineValues();
  }

  lemma NineRepacked()
    ensures Repack([1, 0, 0, 0, 0, 0, 0, 0, 0]) == [0, 0x80, 0, 0, 0, 0, 0, 0, 0]
  {
    var g: seq<byte> := [1, 0, 0, 0, 0, 0, 0, 0, 0];
    NineFront(g);
    forall j | 2 <= j < 9
      ensures Repack(g)[j] == 0
    {
      NineZero(g, j);
    }
  }

  /** The two front positions of the nine-group repacking. */
  lemma NineFront(g: seq<byte>)
    requires g == [1, 0, 0, 0, 0, 0, 0, 0, 0]
    ensures RepackAt(g, 0) == 0 && RepackAt(g, 1) == 0x80
  {
    assert Shift(7) == 7 && Pow2(1) == 2 && Pow2(7) == 0x80;
    assert Carry(g, 8) == Shr(1, 1) == 0;
    assert Carry(g, 7) == Shr(0, 7) == 0;
  }

  /** Behind a zero group, with zero carried in, a position is written zero. */
  lemma NineZero(g: seq<byte>, j: nat)
    requires 2 <= j < |g| && forall i :: 1 <= i < |g| ==> g[i] == 0
    ensures RepackAt(g, j) == 0
  {
    var k := |g| - 1 - j;
    assert Prev(g, j) == 0;
    if k > 0 {
      assert Prev(g, |g| - k) == 0;
      assert Shr(0, 8 - Shift(k - 1)) == 0;
    }
    assert Carry(g, k) == 0;
  }

  lemma NineValues()
    ensures Digits([1, 0, 0, 0, 0, 0, 0, 0, 0], 7) == Pow2(56)
    ensures Digits([0, 0x80, 0, 0, 0, 0, 0, 0, 0], 8) == Pow2(63)
  {
    NineGroupsValue();
    NineBytesValue();
  }

  lemma NineGroupsValue()
    ensures Digits([1, 0, 0, 0, 0, 0, 0, 0, 0], 7) == Pow2(56)
  {
    var zeros: seq<nat> := [0, 0, 0, 0, 0, 0, 0, 0];
    DigitsZeros(zeros, 7);
    assert [1, 0, 0, 0, 0, 0, 0, 0, 0] == [1] + zeros;
    DigitsCons(1, zeros, 7);
  }

  lemma NineBytesValue()
    ensures Digits([0, 0x80, 0, 0, 0, 0, 0, 0, 0], 8) == Pow2(63)
  {
    var zeros: seq<nat> := [0, 0, 0, 0, 0, 0, 0];
    DigitsZeros(zeros, 8);
    assert [0, 0x80, 0, 0, 0, 0, 0, 0, 0] == [0] + ([0x80] + zeros);
    DigitsCons(0x80, zeros, 8);
    DigitsCons(0, [0x80] + zeros, 8);
    assert Pow2(7) == 0x80;
    Pow2Split(7, 56, 63);
  }

  lemma {:induction false} DigitsZeros(s: seq<nat>, w: nat)
    requires forall i :: 0 <= i < |s| ==> s[i] == 0
    ensures Digits(s, w) == 0
  {
    if s != [] {
      DigitsZeros(s[..|s| - 1], w);
    }
  }

  /** `remaining--` on a `uint64_t`. */
  function Wrap64(x: int): u64
  {
    x % 0x1_0000_0000_0000_0000
  }

  datatype OidResult = OidParsed(components: seq<seq<byte>>, next: nat) | OidTruncated

  /** The outer loop of `dec_oid`: components are read while the declared
      count, reduced by one per byte read, is not zero. A component that runs
      past the count makes it wrap around. */
  function OidComponents(data: seq<byte>, off: nat, remaining: u64): (r: OidResult)
    requires off <= |data|
    ensures r.OidParsed? ==> off <= r.next <= |data|
    decreases |data| - off
  {
    if remaining == 0 then OidParsed([], off)
    else
      match VlqStep(data, off)
      case VlqTruncated => OidTruncated
      case Vlq(g, n) =>
        match OidComponents(data, n, Wrap64(remaining - |g|))
        case OidTruncated => OidTruncated
        case OidParsed(cs, m) => OidParsed([Repack(g)] + cs, m)
  }

  /** The effect of `dec_oid(len)` with the cursor at `off`. */
  function OidStep(data: seq<byte>, off: nat, len: u64): (r: Step)
    requires off <= |data|
    ensures r.status.Consumed? ==> off <= r.status.next <= |data|
    ensures r.status.Failed? ==> r.events == []
  {
    match OidComponents(data, off, len)
    case OidTruncated => Step([], Failed(DataTruncated))
    case OidParsed(cs, n) => Step([Oid(cs)], Consumed(n))
  }

  /** With fewer than 2^64 bytes of data, a count larger than what is left
      can only end in truncation, however often it wraps. */
  lemma {:induction false} OidOverrun(data: seq<byte>, off: nat, remaining: u64)
    requires |data| < 0x1_0000_0000_0000_0000 && off <= |data|
    requires remaining > |data| - off
    decreases |data| - off
    ensures OidComponents(data, off, remaining) == OidTruncated
  {
    match VlqStep(data, off)
    case VlqTruncated =>
    case Vlq(g, n) =>
      assert Wrap64(remaining - |g|) == remaining - |g|;
      OidOverrun(data, n, remaining - |g|);
  }

  /** A successful OID consumes exactly its declared length: a component that
      overruns it leaves a wrapped count that truncation ends. */
  lemma {:induction false} OidConsumesDeclared(data: seq<byte>, off: nat, remaining: u64)
    requires |data| < 0x1_0000_0000_0000_0000 && off <= |data|
    decreases |data| - off
    ensures var r := OidComponents(data, off, remaining);
      r.OidParsed? ==> r.next == off + remaining
  {
    if remaining != 0 {
      match VlqStep(data, off)
      case VlqTruncated =>
      case Vlq(g, n) =>
        if |g| <= remaining {
          assert Wrap64(remaining - |g|) == remaining - |g|;
          OidConsumesDeclared(data, n, remaining - |g|);
        } else {
          var w := Wrap64(remaining - |g|);
          assert w == 0x1_0000_0000_0000_0000 + remaining - |g|;
          OidOverrun(data, n, w);
        }
    }
  }

  /** The base-128 groups of an arc, most significant first, with no
      leading zero group. */
  function ArcGroups(v: nat): (r: seq<byte>)
    ensures |r| >= 1 && forall k :: 0 <= k < |r| ==> r[k] < 0x80
    decreases v
  {
    if v < 0x80 then [v] else ArcGroups(v / 0x80) + [v % 0x80]
  }

  /** Groups as encoded bytes: every group but the last has its high bit set. */
  function Marked(gs: seq<byte>): (r: seq<byte>)
    requires forall k :: 0 <= k < |gs| ==> gs[k] < 0x80
    ensures |r| == |gs|
  {
    seq(|gs|, k requires 0 <= k < |gs| => if k < |gs| - 1 then gs[k] + 0x80 else gs[k])
  }

  /** The encoding of one arc, as an encoder writes it. */
  function EncodeArc(v: nat): seq<byte>
  {
    Marked(ArcGroups(v))
  }

  /** The content octets of an OID whose encoded components are `arcs`. */
  function EncodeOid(arcs: seq<nat>): seq<byte>
  {
    if arcs == [] then [] else EncodeArc(arcs[0]) + EncodeOid(arcs[1..])
  }

  lemma {:induction false} ArcGroupsValue(v: nat)
    decreases v
    ensures Digits(ArcGroups(v), 7) == v
  {
    assert Pow2(7) == 0x80;
    if v >= 0x80 {
      var r := ArcGroups(v);
      assert r[..|r| - 1] == ArcGroups(v / 0x80);
      ArcGroupsValue(v / 0x80);
    } else {
      assert Digits([v], 7) == Digits([], 7) * Pow2(7) + v;
    }
  }

  lemma {:induction false} ArcGroupsShort(v: nat, m: nat)
    requires m >= 1 && v < Pow2(7 * m)
    decreases v
    ensures |ArcGroups(v)| <= m
  {
    assert Pow2(7) == 0x80;
    if v >= 0x80 {
      assert m >= 2;
      Pow2Split(7 * (m - 1), 7, 7 * m);
      assert 7 * m == 7 * (m - 1) + 7;
      DivBelow(v, 0x80, Pow2(7 * (m - 1)));
      ArcGroupsShort(v / 0x80, m - 1);
    }
  }

  /** The component reader takes back exactly the groups an encoder marked. */
  lemma {:induction false} VlqReadsMarked(data: seq<byte>, off: nat, gs: seq<byte>)
    requires 1 <= |gs| && off + |gs| <= |data|
    requires forall k :: 0 <= k < |gs| ==> gs[k] < 0x80
    requires data[off..off + |gs|] == Marked(gs)
    decreases |gs|
    ensures VlqStep(data, off) == Vlq(gs, off + |gs|)
  {
    var b := data[off];
    assert b == Marked(gs)[0] by {
      assert b == data[off..off + |gs|][0];
    }
    ByteParts(b);
    if |gs| == 1 {
      assert b == gs[0] < 0x80;
      DivModUnique(b, 0x80, 0, b);
      assert [gs[0]] == gs;
    } else {
      assert b == gs[0] + 0x80;
      DivModUnique(b, 0x80, 1, gs[0]);
      MarkedTail(data, off, gs);
      VlqReadsMarked(data, off + 1, gs[1..]);
      assert [gs[0]] + gs[1..] == gs;
    }
  }

  /** The middle part of a concatenation is found where it was put. */
  lemma SliceOf(a: seq<byte>, m: seq<byte>, c: seq<byte>)
    ensures (a + m + c)[|a|..|a| + |m|] == m
  {
  }

  lemma Regroup3(a: seq<byte>, b: seq<byte>, c: seq<byte>, d: seq<byte>)
    ensures a + (b + c) + d == (a + b) + c + d
    ensures a + (b + c) + d == a + b + (c + d)
  {
  }

  /** What the reader extracts from one byte. */
  lemma ByteParts(b: byte)
    ensures BitAnd(b, 0x7F) == b % 0x80
    ensures BitAnd(b, 0x80) == 0 <==> b < 0x80
  {
    HighBit(b);
    LowMask(b, 7);
    assert Pow2(7) == 0x80;
  }

  lemma MarkedTail(data: seq<byte>, off: nat, gs: seq<byte>)
    requires 2 <= |gs| && off + |gs| <= |data|
    requires forall k :: 0 <= k < |gs| ==> gs[k] < 0x80
    requires data[off..off + |gs|] == Marked(gs)
    ensures data[off + 1..off + 1 + |gs[1..]|] == Marked(gs[1..])
  {
    var tail := gs[1..];
    forall k | 0 <= k < |tail|
      ensures data[off + 1..off + 1 + |tail|][k] == Marked(tail)[k]
    {
      assert data[off + 1 + k] == data[off..off + |gs|][k + 1];
    }
  }

  /** One arc below 2^56 comes back from its groups with its own value, in
      as many bytes as its encoding has. */
  lemma ArcComponent(v: nat)
    requires v < Pow2(56)
    ensures |Repack(ArcGroups(v))| == |EncodeArc(v)|
    ensures Digits(Repack(ArcGroups(v)), 8) == v
  {
    ArcGroupsShort(v, 8);
    RepackValue(ArcGroups(v));
    ArcGroupsValue(v);
  }

  /** Round trip: the content an encoder writes for arcs below 2^56 is
      decoded into one component per arc, each as long as its encoding and
      holding the arc's value, consuming exactly the content. */
  lemma {:induction false} OidRoundTrip(arcs: seq<nat>, before: seq<byte>, after: seq<byte>)
    requires forall i :: 0 <= i < |arcs| ==> arcs[i] < Pow2(56)
    requires |EncodeOid(arcs)| < 0x1_0000_0000_0000_0000
    decreases |arcs|
    ensures var enc := EncodeOid(arcs);
      var r := OidComponents(before + enc + after, |before|, |enc|);
      && r.OidParsed? && r.next == |before| + |enc| && |r.components| == |arcs|
      && forall i :: 0 <= i < |arcs| ==>
           |r.components[i]| == |EncodeArc(arcs[i])| && Digits(r.components[i], 8) == arcs[i]
  {
    if arcs != [] {
      var enc := EncodeOid(arcs);
      var v := arcs[0];
      var e := EncodeArc(v);
      var rest := EncodeOid(arcs[1..]);
      var gs := ArcGroups(v);
      var data := (before + e) + rest + after;
      FirstArc(arcs, before, after);
      assert before + enc + after == data;
      assert |enc| - |gs| == |rest|;
      OidUnfold(data, |before|, |enc|, gs, |before + e|);
      OidRoundTrip(arcs[1..], before + e, after);
      var r1 := OidComponents(data, |before + e|, |rest|);
      ArcComponent(v);
      ConsComponents(arcs, Repack(gs), r1.components);
    }
  }

  /** One turn of the outer loop when the component fits the count. */
  lemma OidUnfold(data: seq<byte>, off: nat, remaining: u64, g: seq<byte>, n: nat)
    requires off <= |data| && remaining != 0 && VlqStep(data, off) == Vlq(g, n) && |g| <= remaining
    ensures var r1 := OidComponents(data, n, remaining - |g|);
      OidComponents(data, off, remaining) ==
        if r1.OidTruncated? then OidTruncated else OidParsed([Repack(g)] + r1.components, r1.next)
  {
    assert Wrap64(remaining - |g|) == remaining - |g|;
  }

  lemma ConsComponents(arcs: seq<nat>, c: seq<byte>, tail: seq<seq<byte>>)
    requires arcs != [] && |tail| == |arcs| - 1
    requires |c| == |EncodeArc(arcs[0])| && Digits(c, 8) == arcs[0]
    requires forall i :: 0 <= i < |arcs| - 1 ==>
      |tail[i]| == |EncodeArc(arcs[1..][i])| && Digits(tail[i], 8) == arcs[1..][i]
    ensures forall i :: 0 <= i < |arcs| ==>
      |([c] + tail)[i]| == |EncodeArc(arcs[i])| && Digits(([c] + tail)[i], 8) == arcs[i]
  {
    forall i | 1 <= i < |arcs|
      ensures |([c] + tail)[i]| == |EncodeArc(arcs[i])| && Digits(([c] + tail)[i], 8) == arcs[i]
    {
      assert ([c] + tail)[i] == tail[i - 1];
      assert arcs[i] == arcs[1..][i - 1];
    }
  }

  /** The first arc's encoding is read as one component, and the rest of the
      content is what the other arcs encode. */
  lemma FirstArc(arcs: seq<nat>, before: seq<byte>, after: seq<byte>)
    requires arcs != []
    ensures var e := EncodeArc(arcs[0]);
      var rest := EncodeOid(arcs[1..]);
      && EncodeOid(arcs) == e + rest
      && before + EncodeOid(arcs) + after == (before + e) + rest + after
      && VlqStep(before + EncodeOid(arcs) + after, |before|) == Vlq(ArcGroups(arcs[0]), |before + e|)
  {
    var e := EncodeArc(arcs[0]);
    var rest := EncodeOid(arcs[1..]);
    var gs := ArcGroups(arcs[0]);
    assert EncodeOid(arcs) == e + rest;
    Regroup3(before, e, rest, after);
    var data := before + e + (rest + after);
    SliceOf(before, e, rest + after);
    VlqReadsMarked(data, |before|, gs);
  }

  /** The OID 1.2.840.113549 as RSA Data Security's arc is encoded: the
      first byte 0x2A is reported as one component, 42, not split into the
      arcs 1 and 2; then 840 and 113549. */
  lemma Rsadsi(data: seq<byte>)
    requires data == [0x2A, 0x86, 0x48, 0x86, 0xF7, 0x0D]
    ensures var s := OidStep(data, 0, 6);
      && s.status == Consumed(6) && |s.events| == 1 && s.events[0].Oid?
      && |s.events[0].components| == 3
      && Digits(s.events[0].components[0], 8) == 42
      && Digits(s.events[0].components[1], 8) == 840
      && Digits(s.events[0].components[2], 8) == 113549
  {
    RsadsiComponents(data);
  }

  lemma RsadsiComponents(data: seq<byte>)
    requires data == [0x2A, 0x86, 0x48, 0x86, 0xF7, 0x0D]
    ensures var r := OidComponents(data, 0, 6);
      && r.OidParsed? && r.next == 6 && |r.components| == 3
      && Digits(r.components[0], 8) == 42
      && Digits(r.components[1], 8) == 840
      && Digits(r.components[2], 8) == 113549
  {
    var arcs: seq<nat> := [42, 840, 113549];
    RsadsiEncoding();
    assert EncodeOid(arcs) == data;
    Pow2Of56();
    OidRoundTrip(arcs, [], []);
    Bare(data);
  }

  lemma Bare(s: seq<byte>)
    ensures [] + s + [] == s
  {
  }

  lemma RsadsiEncoding()
    ensures EncodeOid([42, 840, 113549]) == [0x2A, 0x86, 0x48, 0x86, 0xF7, 0x0D]
  {
    assert ArcGroups(840) == [6, 72];
    assert ArcGroups(113549) == [6, 119, 13];
    assert EncodeArc(42) == [0x2A];
    assert EncodeArc(840) == [0x86, 0x48];
    assert EncodeArc(113549) == [0x86, 0xF7, 0x0D];
    var arcs: seq<nat> := [42, 840, 113549];
    assert arcs[1..] == [840, 113549];
    assert arcs[1..][1..] == [113549];
    assert arcs[1..][1..][1..] == [];
  }
}
