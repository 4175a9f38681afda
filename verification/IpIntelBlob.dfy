/**
 The binary table that scripts/gen-ipintel.py writes and internal/ipintel reads: the two
 programs share no code, so agreement on the wire format is a theorem here (`BlobRoundTrip`),
 and so is the end-to-end answer (`PublishedLookup`): what the Go lookup returns for an address
 is what the generator's source ranges say about it.
 */
module IpIntelBlob {
  import opened Common
  import opened IpIntelMerge

  newtype byte = x: int | 0 <= x < 256

  const VERSION: byte := 1
  const MAGIC: seq<byte> := [0x56, 0x34, 0x32, 0x49]  // "V42I"
  const HEADER_LEN := 16
  const V4_REC_LEN := 11
  const V6_REC_LEN := 35
  const TWO32 := 0x1_0000_0000
  const TWO64 := 0x1_0000_0000_0000_0000

  // ------------------------------------------------------------------ little-endian integers

  function Pow256(n: nat): (p: nat)
    ensures p > 0
  {
    if n == 0 then 1 else 256 * Pow256(n - 1)
  }

  /** The low n bytes of v, least significant first. */
  function Le(v: nat, n: nat): (bs: seq<byte>)
    ensures |bs| == n
  {
    if n == 0 then [] else [(v % 256) as byte] + Le(v / 256, n - 1)
  }

  function FromLe(bs: seq<byte>): nat {
    if bs == [] then 0 else bs[0] as int + 256 * FromLe(bs[1..])
  }

  lemma {:induction false} LeRoundTrip(v: nat, n: nat)
    requires v < Pow256(n)
    ensures FromLe(Le(v, n)) == v
  {
    if n > 0 {
      LeRoundTrip(v / 256, n - 1);
      assert Le(v, n)[1..] == Le(v / 256, n - 1);
    }
  }

  lemma Widths()
    ensures Pow256(4) == TWO32 && Pow256(8) == TWO64
  {
    assert Pow256(1) == 256 && Pow256(2) == 65536 && Pow256(3) == 0x100_0000 && Pow256(4) == TWO32;
    assert Pow256(5) == 0x100_0000_0000 && Pow256(6) == 0x1_0000_0000_0000 && Pow256(7) == 0x100_0000_0000_0000;
  }

  // ------------------------------------------------------------------ the Python writer

  predicate IsCode(cc: string) {
    cc == "" || (|cc| == 2 && 'A' <= cc[0] <= 'Z' && 'A' <= cc[1] <= 'Z')
  }

  /** cc_bytes: two ASCII bytes, or two zero bytes for no country. */
  function CcBytes(cc: string): (bs: seq<byte>)
    requires IsCode(cc)
    ensures |bs| == 2
  {
    if |cc| == 2 then [cc[0] as int as byte, cc[1] as int as byte] else [0, 0]
  }

  /** What struct.pack accepts for one row of an n-bit family. */
  predicate Packable(s: Segment, bound: int) {
    0 <= s.lo <= s.hi < bound && IsCode(s.cc) && 0 <= s.flags < 4
  }

  ghost predicate AllPackable(t: seq<Segment>, bound: int) {
    forall i :: 0 <= i < |t| ==> Packable(t[i], bound)
  }

  function PackV4(s: Segment): (bs: seq<byte>)
    requires Packable(s, TWO32)
    ensures |bs| == V4_REC_LEN
  {
    Le(s.lo, 4) + Le(s.hi, 4) + CcBytes(s.cc) + [s.flags as byte]
  }

  function PackV6(s: Segment): (bs: seq<byte>)
    requires Packable(s, TWO64 * TWO64)
    ensures |bs| == V6_REC_LEN
  {
    Le(s.lo / TWO64, 8) + Le(s.lo % TWO64, 8) + Le(s.hi / TWO64, 8) + Le(s.hi % TWO64, 8)
    + CcBytes(s.cc) + [s.flags as byte]
  }

  function PackAllV4(t: seq<Segment>): (bs: seq<byte>)
    requires AllPackable(t, TWO32)
    ensures |bs| == V4_REC_LEN * |t|
  {
    if t == [] then [] else PackAllV4(t[..|t| - 1]) + PackV4(t[|t| - 1])
  }

  function PackAllV6(t: seq<Segment>): (bs: seq<byte>)
    requires AllPackable(t, TWO64 * TWO64)
    ensures |bs| == V6_REC_LEN * |t|
  {
    if t == [] then [] else PackAllV6(t[..|t| - 1]) + PackV6(t[|t| - 1])
  }

  function Header(v4: nat, v6: nat): (bs: seq<byte>)
    ensures |bs| == HEADER_LEN
  {
    MAGIC + [VERSION, 0, 0, 0] + Le(v4, 4) + Le(v6, 4)
  }

  function Blob(v4: seq<Segment>, v6: seq<Segment>): seq<byte>
    requires AllPackable(v4, TWO32) && AllPackable(v6, TWO64 * TWO64)
  {
    Header(|v4|, |v6|) + PackAllV4(v4) + PackAllV6(v6)
  }

  method AppendV4(out: seq<byte>, t: seq<Segment>) returns (r: seq<byte>)
    requires AllPackable(t, TWO32)
    ensures r == out + PackAllV4(t)
  {
    r := out;
    for i := 0 to |t|
      invariant r == out + PackAllV4(t[..i])
    {
      assert t[..i + 1][..i] == t[..i];
      r := r + PackV4(t[i]);
    }
    assert t[..|t|] == t;
  }

  method AppendV6(out: seq<byte>, t: seq<Segment>) returns (r: seq<byte>)
    requires AllPackable(t, TWO64 * TWO64)
    ensures r == out + PackAllV6(t)
  {
    r := out;
    for i := 0 to |t|
      invariant r == out + PackAllV6(t[..i])
    {
      assert t[..i + 1][..i] == t[..i];
      r := r + PackV6(t[i]);
    }
    assert t[..|t|] == t;
  }

  method Serialize(v4: seq<Segment>, v6: seq<Segment>) returns (out: seq<byte>)
    requires AllPackable(v4, TWO32) && AllPackable(v6, TWO64 * TWO64)
    ensures out == Blob(v4, v6)
  {
    out := Header(|v4|, |v6|);
    out := AppendV4(out, v4);
    out := AppendV6(out, v6);
  }

  // ------------------------------------------------------------------ the Go reader

  datatype V4Range = V4Range(start: nat, end: nat, cc: (byte, byte), flags: byte)
  datatype V6Range = V6Range(startHi: nat, startLo: nat, endHi: nat, endLo: nat, cc: (byte, byte), flags: byte)

  datatype Decoded = BadMagic | BadVersion | Truncated | Snapshot(v4: seq<V4Range>, v6: seq<V6Range>)

  function ReadV4(bs: seq<byte>): V4Range
    requires |bs| == V4_REC_LEN
  {
    V4Range(FromLe(bs[0..4]), FromLe(bs[4..8]), (bs[8], bs[9]), bs[10])
  }

  function ReadV6(bs: seq<byte>): V6Range
    requires |bs| == V6_REC_LEN
  {
    V6Range(FromLe(bs[0..8]), FromLe(bs[8..16]), FromLe(bs[16..24]), FromLe(bs[24..32]), (bs[32], bs[33]), bs[34])
  }

  /** What decode must answer for a blob, up to its defensive re-sort (which `GeneratedIsSorted` shows never runs). */
  ghost predicate DecodesTo(blob: seq<byte>, d: Decoded) {
    if |blob| < HEADER_LEN then d == Truncated
    else if blob[0..4] != MAGIC then d == BadMagic
    else if blob[4] != VERSION then d == BadVersion
    else
      var n4, n6 := FromLe(blob[8..12]), FromLe(blob[12..16]);
      if |blob| < HEADER_LEN + n4 * V4_REC_LEN + n6 * V6_REC_LEN then d == Truncated
      else
        && d.Snapshot? && |d.v4| == n4 && |d.v6| == n6
        && (forall i :: 0 <= i < n4 ==> d.v4[i] == ReadV4(Rec4(blob, i)))
        && (forall i :: 0 <= i < n6 ==> d.v6[i] == ReadV6(Rec6(blob, n4, i)))
  }

  method Decode(blob: seq<byte>) returns (d: Decoded)
    ensures DecodesTo(blob, d)
  {
    if |blob| < HEADER_LEN { return Truncated; }
    if blob[0..4] != MAGIC { return BadMagic; }
    if blob[4] != VERSION { return BadVersion; }
    var n4, n6 := FromLe(blob[8..12]), FromLe(blob[12..16]);
    if |blob| < HEADER_LEN + n4 * V4_REC_LEN + n6 * V6_REC_LEN { return Truncated; }
    var v4: seq<V4Range>, v6: seq<V6Range> := [], [];
    var off := HEADER_LEN;
    for i := 0 to n4
      invariant |v4| == i && off == HEADER_LEN + i * V4_REC_LEN
      invariant forall j :: 0 <= j < i ==> v4[j] == ReadV4(Rec4(blob, j))
    {
      assert blob[off..off + V4_REC_LEN] == Rec4(blob, i);
      v4 := v4 + [ReadV4(blob[off..off + V4_REC_LEN])];
      off := off + V4_REC_LEN;
    }
    for i := 0 to n6
      invariant |v6| == i && off == HEADER_LEN + n4 * V4_REC_LEN + i * V6_REC_LEN
      invariant forall j :: 0 <= j < i ==> v6[j] == ReadV6(Rec6(blob, n4, j))
    {
      assert blob[off..off + V6_REC_LEN] == Rec6(blob, n4, i);
      v6 := v6 + [ReadV6(blob[off..off + V6_REC_LEN])];
      off := off + V6_REC_LEN;
    }
    d := Snapshot(v4, v6);
  }

  function Rec4(blob: seq<byte>, i: nat): (r: seq<byte>)
    requires HEADER_LEN + (i + 1) * V4_REC_LEN <= |blob|
    ensures |r| == V4_REC_LEN
  {
    blob[HEADER_LEN + i * V4_REC_LEN..HEADER_LEN + (i + 1) * V4_REC_LEN]
  }

  function Rec6(blob: seq<byte>, n4: nat, i: nat): (r: seq<byte>)
    requires HEADER_LEN + n4 * V4_REC_LEN + (i + 1) * V6_REC_LEN <= |blob|
    ensures |r| == V6_REC_LEN
  {
    blob[HEADER_LEN + n4 * V4_REC_LEN + i * V6_REC_LEN..HEADER_LEN + n4 * V4_REC_LEN + (i + 1) * V6_REC_LEN]
  }

  // ------------------------------------------------------------------ round trip

  function RowV4(s: Segment): V4Range
    requires Packable(s, TWO32)
  {
    V4Range(s.lo, s.hi, (CcBytes(s.cc)[0], CcBytes(s.cc)[1]), s.flags as byte)
  }

  function RowV6(s: Segment): V6Range
    requires Packable(s, TWO64 * TWO64)
  {
    V6Range(s.lo / TWO64, s.lo % TWO64, s.hi / TWO64, s.hi % TWO64,
            (CcBytes(s.cc)[0], CcBytes(s.cc)[1]), s.flags as byte)
  }

  lemma ReadPackedV4(s: Segment)
    requires Packable(s, TWO32)
    ensures ReadV4(PackV4(s)) == RowV4(s)
  {
    var bs := PackV4(s);
    Widths();
    LeRoundTrip(s.lo, 4);
    LeRoundTrip(s.hi, 4);
    assert bs[0..4] == Le(s.lo, 4) && bs[4..8] == Le(s.hi, 4);
  }

  lemma FieldsOf(a: seq<byte>, b: seq<byte>, c: seq<byte>, d: seq<byte>, cc: seq<byte>, flags: byte, bs: seq<byte>)
    requires |a| == |b| == |c| == |d| == 8 && |cc| == 2 && bs == a + b + c + d + cc + [flags]
    ensures |bs| == 35 && bs[0..8] == a && bs[8..16] == b && bs[16..24] == c && bs[24..32] == d
    ensures bs[32] == cc[0] && bs[33] == cc[1] && bs[34] == flags
  {
  }

  lemma ReadPackedV6(s: Segment)
    requires Packable(s, TWO64 * TWO64)
    ensures ReadV6(PackV6(s)) == RowV6(s)
  {
    Widths();
    LeRoundTrip(s.lo / TWO64, 8);
    LeRoundTrip(s.lo % TWO64, 8);
    LeRoundTrip(s.hi / TWO64, 8);
    LeRoundTrip(s.hi % TWO64, 8);
    FieldsOf(Le(s.lo / TWO64, 8), Le(s.lo % TWO64, 8), Le(s.hi / TWO64, 8), Le(s.hi % TWO64, 8),
             CcBytes(s.cc), s.flags as byte, PackV6(s));
  }

  lemma SliceOf(front: seq<byte>, rec: seq<byte>, lo: nat, hi: nat)
    requires lo <= hi && (hi <= |front| || (lo == |front| && hi == |front| + |rec|))
    ensures (front + rec)[lo..hi] == if hi <= |front| then front[lo..hi] else rec
  {
  }

  lemma {:induction false} RecordOfV4(t: seq<Segment>, i: nat)
    requires AllPackable(t, TWO32) && i < |t|
    ensures PackAllV4(t)[i * V4_REC_LEN..(i + 1) * V4_REC_LEN] == PackV4(t[i])
  {
    var n := |t| - 1;
    var front, rec := PackAllV4(t[..n]), PackV4(t[n]);
    if i < n {
      RecordOfV4(t[..n], i);
    }
    SliceOf(front, rec, i * V4_REC_LEN, (i + 1) * V4_REC_LEN);
  }

  lemma {:induction false} RecordOfV6(t: seq<Segment>, i: nat)
    requires AllPackable(t, TWO64 * TWO64) && i < |t|
    ensures PackAllV6(t)[i * V6_REC_LEN..(i + 1) * V6_REC_LEN] == PackV6(t[i])
  {
    var n := |t| - 1;
    var front, rec := PackAllV6(t[..n]), PackV6(t[n]);
    if i < n {
      RecordOfV6(t[..n], i);
    }
    SliceOf(front, rec, i * V6_REC_LEN, (i + 1) * V6_REC_LEN);
  }

  /** The Go snapshot holds exactly the rows of the two Python tables. */
  ghost predicate Carries(d: Decoded, v4: seq<Segment>, v6: seq<Segment>)
    requires AllPackable(v4, TWO32) && AllPackable(v6, TWO64 * TWO64)
  {
    && d.Snapshot? && |d.v4| == |v4| && |d.v6| == |v6|
    && (forall i :: 0 <= i < |v4| ==> d.v4[i] == RowV4(v4[i]))
    && (forall i :: 0 <= i < |v6| ==> d.v6[i] == RowV6(v6[i]))
  }

  lemma HeaderReads(v4: seq<Segment>, v6: seq<Segment>)
    requires AllPackable(v4, TWO32) && AllPackable(v6, TWO64 * TWO64) && |v4| < TWO32 && |v6| < TWO32
    ensures var blob := Blob(v4, v6);
      && |blob| == HEADER_LEN + |v4| * V4_REC_LEN + |v6| * V6_REC_LEN
      && blob[0..4] == MAGIC && blob[4] == VERSION
      && FromLe(blob[8..12]) == |v4| && FromLe(blob[12..16]) == |v6|
      && blob[8..12] == Le(|v4|, 4) && blob[12..16] == Le(|v6|, 4)
  {
    var blob := Blob(v4, v6);
    Widths();
    LeRoundTrip(|v4|, 4);
    LeRoundTrip(|v6|, 4);
    assert blob[0..4] == MAGIC && blob[8..12] == Le(|v4|, 4) && blob[12..16] == Le(|v6|, 4);
  }

  /** decode(serialize(v4, v6)) gives back every row of both tables. */
  lemma BlobRoundTrip(v4: seq<Segment>, v6: seq<Segment>, d: Decoded)
    requires AllPackable(v4, TWO32) && AllPackable(v6, TWO64 * TWO64) && |v4| < TWO32 && |v6| < TWO32
    requires DecodesTo(Blob(v4, v6), d)
    ensures Carries(d, v4, v6)
  {
    HeaderReads(v4, v6);
    forall i | 0 <= i < |v4| ensures d.v4[i] == RowV4(v4[i]) {
      Rec4OfBlob(v4, v6, i);
      ReadPackedV4(v4[i]);
    }
    forall i | 0 <= i < |v6| ensures d.v6[i] == RowV6(v6[i]) {
      Rec6OfBlob(v4, v6, i);
      ReadPackedV6(v6[i]);
    }
  }

  lemma Rec4OfBlob(v4: seq<Segment>, v6: seq<Segment>, i: nat)
    requires AllPackable(v4, TWO32) && AllPackable(v6, TWO64 * TWO64) && i < |v4|
    ensures HEADER_LEN + (i + 1) * V4_REC_LEN <= |Blob(v4, v6)|
    ensures Rec4(Blob(v4, v6), i) == PackV4(v4[i])
  {
    RecordOfV4(v4, i);
    assert Rec4(Blob(v4, v6), i) == PackAllV4(v4)[i * V4_REC_LEN..(i + 1) * V4_REC_LEN];
  }

  lemma Rec6OfBlob(v4: seq<Segment>, v6: seq<Segment>, i: nat)
    requires AllPackable(v4, TWO32) && AllPackable(v6, TWO64 * TWO64) && i < |v6|
    ensures HEADER_LEN + |v4| * V4_REC_LEN + (i + 1) * V6_REC_LEN <= |Blob(v4, v6)|
    ensures Rec6(Blob(v4, v6), |v4|, i) == PackV6(v6[i])
  {
    RecordOfV6(v6, i);
    assert Rec6(Blob(v4, v6), |v4|, i) == PackAllV6(v6)[i * V6_REC_LEN..(i + 1) * V6_REC_LEN];
  }

  // ------------------------------------------------------------------ the bytes on the wire

  ghost function Word(bs: seq<byte>, at: nat): int
    requires at + 4 <= |bs|
  {
    bs[at] as int + 0x100 * bs[at + 1] as int + 0x1_0000 * bs[at + 2] as int + 0x100_0000 * bs[at + 3] as int
  }

  lemma LeIsWord(v: nat, bs: seq<byte>, at: nat)
    requires v < TWO32 && at + 4 <= |bs| && bs[at..at + 4] == Le(v, 4)
    ensures Word(bs, at) == v
  {
    var d := Le(v, 4);
    assert d[0] as int == v % 256;
    assert d == [d[0]] + Le(v / 256, 3) && d[1] == Le(v / 256, 3)[0];
    assert Le(v / 256, 3) == [d[1]] + Le(v / 256 / 256, 2) && d[2] == Le(v / 256 / 256, 2)[0];
    assert Le(v / 256 / 256, 2) == [d[2]] + Le(v / 256 / 256 / 256, 1) && d[3] == Le(v / 256 / 256 / 256, 1)[0];
    assert bs[at..at + 4][0] == bs[at] && bs[at..at + 4][1] == bs[at + 1];
    assert bs[at..at + 4][2] == bs[at + 2] && bs[at..at + 4][3] == bs[at + 3];
  }

  lemma FromLeIsWord(bs: seq<byte>, at: nat)
    requires at + 4 <= |bs|
    ensures FromLe(bs[at..at + 4]) == Word(bs, at)
  {
    var d := bs[at..at + 4];
    assert d[1..][1..] == d[2..] && d[2..][1..] == d[3..] && d[3..][1..] == [];
    assert FromLe(d[3..]) == d[3] as int;
    assert FromLe(d[2..]) == d[2] as int + 256 * FromLe(d[3..]);
    assert FromLe(d[1..]) == d[1] as int + 256 * FromLe(d[2..]);
  }

  /** What decode answers, by the bytes alone: each refusal exactly on its own kind of blob, and otherwise as many rows
      as the header says. */
  lemma DecodeIff(blob: seq<byte>, d: Decoded)
    requires DecodesTo(blob, d)
    ensures d == Truncated <==>
      || |blob| < 16
      || (blob[..4] == [0x56, 0x34, 0x32, 0x49] && blob[4] == 1
          && |blob| < 16 + 11 * Word(blob, 8) + 35 * Word(blob, 12))
    ensures d == BadMagic <==> |blob| >= 16 && blob[..4] != [0x56, 0x34, 0x32, 0x49]
    ensures d == BadVersion <==> |blob| >= 16 && blob[..4] == [0x56, 0x34, 0x32, 0x49] && blob[4] != 1
    ensures d.Snapshot? ==> |d.v4| == Word(blob, 8) && |d.v6| == Word(blob, 12)
    ensures d.Snapshot? ==> forall i :: 0 <= i < |d.v4| ==> ReadsV4(blob, 16 + 11 * i, d.v4[i])
    ensures d.Snapshot? ==> forall i :: 0 <= i < |d.v6| ==> ReadsV6(blob, 16 + 11 * |d.v4| + 35 * i, d.v6[i])
  {
    assert |blob| >= 16 ==> blob[0..4] == blob[..4];
    if |blob| >= 16 {
      FromLeIsWord(blob, 8);
      FromLeIsWord(blob, 12);
    }
    if d.Snapshot? {
      DecodedRows(blob, d);
    }
  }

  lemma DecodedRows(blob: seq<byte>, d: Decoded)
    requires DecodesTo(blob, d) && d.Snapshot?
    ensures forall i :: 0 <= i < |d.v4| ==> ReadsV4(blob, 16 + 11 * i, d.v4[i])
    ensures forall i :: 0 <= i < |d.v6| ==> ReadsV6(blob, 16 + 11 * |d.v4| + 35 * i, d.v6[i])
  {
    forall i | 0 <= i < |d.v4| ensures ReadsV4(blob, 16 + 11 * i, d.v4[i]) {
      ReadV4Fields(blob, i);
    }
    forall i | 0 <= i < |d.v6| ensures ReadsV6(blob, 16 + 11 * |d.v4| + 35 * i, d.v6[i]) {
      ReadV6Fields(blob, |d.v4|, i, 16 + 11 * |d.v4| + 35 * i);
    }
  }

  /** The row whose bytes stand at `at`. */
  ghost predicate ReadsV4(blob: seq<byte>, at: nat, row: V4Range) {
    && at + 11 <= |blob|
    && row == V4Range(Word(blob, at), Word(blob, at + 4), (blob[at + 8], blob[at + 9]), blob[at + 10])
  }

  lemma ReadV4Fields(blob: seq<byte>, i: nat)
    requires 16 + 11 * (i + 1) <= |blob|
    ensures ReadsV4(blob, 16 + 11 * i, ReadV4(Rec4(blob, i)))
  {
    var at, rec := 16 + 11 * i, Rec4(blob, i);
    assert rec == blob[at..at + 11];
    WordOf(blob, at, rec, 0);
    WordOf(blob, at, rec, 4);
    TailOf(blob, at, rec);
  }

  lemma SubSlice(blob: seq<byte>, at: nat, rec: seq<byte>, i: nat, n: nat)
    requires at + |rec| <= |blob| && rec == blob[at..at + |rec|] && i + n <= |rec|
    ensures rec[i..i + n] == blob[at + i..at + i + n]
  {
    var x, y := rec[i..i + n], blob[at + i..at + i + n];
    forall k | 0 <= k < n ensures x[k] == y[k] {
      assert rec[i + k] == blob[at + (i + k)];
    }
  }

  lemma WordOf(blob: seq<byte>, at: nat, rec: seq<byte>, i: nat)
    requires at + |rec| <= |blob| && rec == blob[at..at + |rec|] && i + 4 <= |rec|
    ensures FromLe(rec[i..i + 4]) == Word(blob, at + i)
  {
    SubSlice(blob, at, rec, i, 4);
    FromLeIsWord(blob, at + i);
  }

  lemma TailOf(blob: seq<byte>, at: nat, rec: seq<byte>)
    requires at + |rec| <= |blob| && rec == blob[at..at + |rec|] && |rec| >= 3
    ensures rec[|rec| - 3] == blob[at + |rec| - 3] && rec[|rec| - 2] == blob[at + |rec| - 2]
    ensures rec[|rec| - 1] == blob[at + |rec| - 1]
  {
  }

  ghost function Long(bs: seq<byte>, at: nat): int
    requires at + 8 <= |bs|
  {
    Word(bs, at) + 0x1_0000_0000 * Word(bs, at + 4)
  }

  lemma FromLeIsLong(bs: seq<byte>, at: nat)
    requires at + 8 <= |bs|
    ensures FromLe(bs[at..at + 8]) == Long(bs, at)
  {
    var d := bs[at..at + 8];
    assert d[1..][1..] == d[2..] && d[2..][1..] == d[3..] && d[3..][1..] == d[4..] && d[4..] == bs[at + 4..at + 8];
    assert FromLe(d[3..]) == d[3] as int + 256 * FromLe(d[4..]);
    assert FromLe(d[2..]) == d[2] as int + 256 * FromLe(d[3..]);
    assert FromLe(d[1..]) == d[1] as int + 256 * FromLe(d[2..]);
    FromLeIsWord(bs, at + 4);
  }

  ghost predicate ReadsV6(blob: seq<byte>, at: nat, row: V6Range) {
    && at + 35 <= |blob|
    && row.startHi == Long(blob, at) && row.startLo == Long(blob, at + 8)
    && row.endHi == Long(blob, at + 16) && row.endLo == Long(blob, at + 24)
    && row.cc == (blob[at + 32], blob[at + 33]) && row.flags == blob[at + 34]
  }

  lemma ReadV6Fields(blob: seq<byte>, n4: nat, i: nat, at: nat)
    requires at == 16 + 11 * n4 + 35 * i && at + 35 <= |blob|
    ensures ReadsV6(blob, at, ReadV6(Rec6(blob, n4, i)))
  {
    var rec := Rec6(blob, n4, i);
    assert rec == blob[at..at + 35];
    LongOf(blob, at, rec, 0);
    LongOf(blob, at, rec, 8);
    LongOf(blob, at, rec, 16);
    LongOf(blob, at, rec, 24);
    TailOf(blob, at, rec);
  }

  lemma LongOf(blob: seq<byte>, at: nat, rec: seq<byte>, i: nat)
    requires at + |rec| <= |blob| && rec == blob[at..at + |rec|] && i + 8 <= |rec|
    ensures FromLe(rec[i..i + 8]) == Long(blob, at + i)
  {
    SubSlice(blob, at, rec, i, 8);
    FromLeIsLong(blob, at + i);
  }

  /** The header as documented: "V42I", version 1, three zeros and the two counts. */
  lemma HeaderLayout(v4: seq<Segment>, v6: seq<Segment>)
    requires AllPackable(v4, TWO32) && AllPackable(v6, TWO64 * TWO64) && |v4| < TWO32 && |v6| < TWO32
    ensures var blob := Blob(v4, v6);
      && |blob| == 16 + 11 * |v4| + 35 * |v6|
      && blob[..8] == [0x56, 0x34, 0x32, 0x49, 1, 0, 0, 0]
      && Word(blob, 8) == |v4| && Word(blob, 12) == |v6|
  {
    HeaderReads(v4, v6);
    LeIsWord(|v4|, Blob(v4, v6), 8);
    LeIsWord(|v6|, Blob(v4, v6), 12);
  }

  ghost predicate CodeAt(bs: seq<byte>, at: nat, cc: string)
    requires at + 2 <= |bs|
  {
    if |cc| == 2 then bs[at] as int == cc[0] as int && bs[at + 1] as int == cc[1] as int
    else bs[at] == 0 && bs[at + 1] == 0
  }

  /** A v4 row is eleven bytes: first and last address, least significant byte first, the code's letters, the flags. */
  lemma RowLayoutV4(s: Segment)
    requires Packable(s, TWO32)
    ensures var rec := PackV4(s);
      |rec| == 11 && Word(rec, 0) == s.lo && Word(rec, 4) == s.hi && CodeAt(rec, 8, s.cc) && rec[10] as int == s.flags
  {
    var rec := PackV4(s);
    assert rec[0..4] == Le(s.lo, 4) && rec[4..8] == Le(s.hi, 4);
    LeIsWord(s.lo, rec, 0);
    LeIsWord(s.hi, rec, 4);
  }

  /** A v6 row is thirty-five: the high and low halves of the first and of the last address, then as for v4. */
  lemma RowLayoutV6(s: Segment)
    requires Packable(s, TWO64 * TWO64)
    ensures var rec := PackV6(s);
      && |rec| == 35
      && s.lo == Long(rec, 0) * 0x1_0000_0000_0000_0000 + Long(rec, 8)
      && s.hi == Long(rec, 16) * 0x1_0000_0000_0000_0000 + Long(rec, 24)
      && CodeAt(rec, 32, s.cc) && rec[34] as int == s.flags
  {
    var rec := PackV6(s);
    ReadPackedV6(s);
    FromLeIsLong(rec, 0);
    FromLeIsLong(rec, 8);
    FromLeIsLong(rec, 16);
    FromLeIsLong(rec, 24);
  }

  /** The rows stand one after the other behind the header, v4 before v6. */
  lemma WireLayout(v4: seq<Segment>, v6: seq<Segment>)
    requires AllPackable(v4, TWO32) && AllPackable(v6, TWO64 * TWO64) && |v4| < TWO32 && |v6| < TWO32
    ensures |Blob(v4, v6)| == 16 + 11 * |v4| + 35 * |v6|
    ensures forall i :: 0 <= i < |v4| ==> Blob(v4, v6)[16 + 11 * i..][..11] == PackV4(v4[i])
    ensures forall i :: 0 <= i < |v6| ==> Blob(v4, v6)[16 + 11 * |v4| + 35 * i..][..35] == PackV6(v6[i])
  {
    HeaderReads(v4, v6);
    var blob := Blob(v4, v6);
    forall i | 0 <= i < |v4| ensures blob[16 + 11 * i..][..11] == PackV4(v4[i]) {
      Rec4OfBlob(v4, v6, i);
      assert blob[16 + 11 * i..][..11] == Rec4(blob, i);
    }
    forall i | 0 <= i < |v6| ensures blob[16 + 11 * |v4| + 35 * i..][..35] == PackV6(v6[i]) {
      Rec6OfBlob(v4, v6, i);
      assert blob[16 + 11 * |v4| + 35 * i..][..35] == Rec6(blob, |v4|, i);
    }
  }

  // ------------------------------------------------------------------ lookup

  datatype Info = Info(country: string, hosting: bool, tor: bool, anonymous: bool)

  const NO_INFO := Info("", false, false, false)

  function InfoFrom(cc: (byte, byte), flags: byte): Info {
    var hosting, tor := flags % 2 == 1, flags / 2 % 2 == 1;
    var country := if cc.0 != 0 && cc.1 != 0 then [cc.0 as int as char, cc.1 as int as char] else "";
    Info(country, hosting, tor, tor || hosting)
  }

  /** Bit 0 is hosting and bit 1 is Tor, whatever the other bits; a code with a zero byte in it is no country. */
  lemma InfoBits(cc: (byte, byte), flags: byte, info: Info)
    requires info == InfoFrom(cc, flags)
    ensures info.hosting <==> flags % 4 == 1 || flags % 4 == 3
    ensures info.tor <==> flags % 4 == 2 || flags % 4 == 3
    ensures info.anonymous <==> flags % 4 != 0
    ensures info.country == "" <==> cc.0 == 0 || cc.1 == 0
    ensures info.country != "" ==>
      |info.country| == 2 && info.country[0] as int == cc.0 as int && info.country[1] as int == cc.1 as int
  {
  }

  function Less128(aHi: nat, aLo: nat, bHi: nat, bLo: nat): bool {
    if aHi != bHi then aHi < bHi else aLo < bLo
  }

  /** What a table entry, or its absence, must look like to a caller of Lookup. */
  function InfoOf(at: Option<Attr>): Info {
    match at
    case None => NO_INFO
    case Some(a) => Info(a.cc, a.flags == 1 || a.flags == 3, a.flags == 2 || a.flags == 3, a.flags != 0)
  }

  lemma RowInfo(cc: string, flags: int)
    requires IsCode(cc) && 0 <= flags < 4
    ensures InfoFrom((CcBytes(cc)[0], CcBytes(cc)[1]), flags as byte) == InfoOf(Some(Attr(cc, flags)))
  {
    assert flags == 0 || flags == 1 || flags == 2 || flags == 3;
    if |cc| == 2 {
      assert cc == [cc[0], cc[1]];
    }
  }

  lemma Less128IsLess(aHi: nat, aLo: nat, bHi: nat, bLo: nat)
    requires aLo < TWO64 && bLo < TWO64
    ensures Less128(aHi, aLo, bHi, bLo) <==> aHi * TWO64 + aLo < bHi * TWO64 + bLo
  {
  }

  /** The only segment that can hold ip is the last one starting at or before it. */
  lemma LastStarterDecides(t: seq<Segment>, i: nat, ip: int)
    requires Ordered(t) && SplitsAt(t, i, ip)
    ensures At(t, ip) == if i > 0 && ip <= t[i - 1].hi then Some(Attr(t[i - 1].cc, t[i - 1].flags)) else None
  {
    if i > 0 && ip <= t[i - 1].hi {
      AtFinds(t, i - 1, ip);
    } else {
      forall j | 0 <= j < |t| ensures !Holds(t[j], ip) {
        assert j < i - 1 ==> t[j].hi < t[i - 1].lo;
      }
      AtNoneOutside(t, ip);
    }
  }

  /** i splits the rows into those starting at or before ip and those starting after it. */
  ghost predicate SplitsAt(t: seq<Segment>, i: nat, ip: int) {
    && i <= |t|
    && (forall k :: 0 <= k < i ==> t[k].lo <= ip)
    && (forall k :: i <= k < |t| ==> ip < t[k].lo)
  }

  /** One probe of sort.Search decides every row on its side. */
  lemma Probe(t: seq<Segment>, h: nat, ip: int)
    requires Ordered(t) && h < |t|
    ensures ip < t[h].lo ==> forall k :: h <= k < |t| ==> ip < t[k].lo
    ensures t[h].lo <= ip ==> forall k :: 0 <= k <= h ==> t[k].lo <= ip
  {
    assert forall k :: 0 <= k < h ==> t[k].lo <= t[k].hi < t[h].lo;
    assert forall k :: h < k < |t| ==> t[h].lo <= t[h].hi < t[k].lo;
  }

  /** lookupV4: binary search for the last range starting at or before ip. */
  method LookupV4(r: seq<V4Range>, ip: nat, ghost t: seq<Segment>) returns (info: Info)
    requires AllPackable(t, TWO32) && Ordered(t)
    requires |r| == |t| && forall i :: 0 <= i < |t| ==> r[i] == RowV4(t[i])
    ensures info == InfoOf(At(t, ip))
  {
    var i, j := 0, |r|;
    while i < j
      invariant 0 <= i <= j <= |r|
      invariant forall k :: 0 <= k < i ==> t[k].lo <= ip
      invariant forall k :: j <= k < |r| ==> ip < t[k].lo
    {
      var h := (i + j) / 2;
      Probe(t, h, ip);
      if r[h].start > ip {
        j := h;
      } else {
        i := h + 1;
      }
    }
    LastStarterDecides(t, i, ip);
    if i == 0 {
      return NO_INFO;
    }
    var e := r[i - 1];
    RowInfo(t[i - 1].cc, t[i - 1].flags);
    info := if ip <= e.end then InfoFrom(e.cc, e.flags) else NO_INFO;
  }

  /** The split compare of one row agrees with comparing whole addresses. */
  lemma RowV6Compare(s: Segment, hi: nat, lo: nat)
    requires Packable(s, TWO64 * TWO64) && lo < TWO64
    ensures Less128(hi, lo, RowV6(s).startHi, RowV6(s).startLo) <==> hi * TWO64 + lo < s.lo
    ensures Less128(RowV6(s).endHi, RowV6(s).endLo, hi, lo) <==> s.hi < hi * TWO64 + lo
  {
    Less128IsLess(hi, lo, s.lo / TWO64, s.lo % TWO64);
    Less128IsLess(s.hi / TWO64, s.hi % TWO64, hi, lo);
  }

  method SearchV6(r: seq<V6Range>, hi: nat, lo: nat, ghost t: seq<Segment>) returns (i: nat)
    requires AllPackable(t, TWO64 * TWO64) && Ordered(t) && lo < TWO64
    requires |r| == |t| && forall i :: 0 <= i < |t| ==> r[i] == RowV6(t[i])
    ensures SplitsAt(t, i, hi * TWO64 + lo)
  {
    ghost var ip := hi * TWO64 + lo;
    i := 0;
    var j := |r|;
    while i < j
      invariant 0 <= i <= j <= |r|
      invariant forall k :: 0 <= k < i ==> t[k].lo <= ip
      invariant forall k :: j <= k < |r| ==> ip < t[k].lo
    {
      var h := (i + j) / 2;
      Probe(t, h, ip);
      assert Less128(hi, lo, r[h].startHi, r[h].startLo) <==> ip < t[h].lo by {
        RowV6Compare(t[h], hi, lo);
      }
      if Less128(hi, lo, r[h].startHi, r[h].startLo) {
        j := h;
      } else {
        i := h + 1;
      }
    }
  }

  /** lookupV6: the same search over addresses split into two 64-bit halves. */
  method LookupV6(r: seq<V6Range>, hi: nat, lo: nat, ghost t: seq<Segment>) returns (info: Info)
    requires AllPackable(t, TWO64 * TWO64) && Ordered(t) && lo < TWO64
    requires |r| == |t| && forall i :: 0 <= i < |t| ==> r[i] == RowV6(t[i])
    ensures info == InfoOf(At(t, hi * TWO64 + lo))
  {
    var i := SearchV6(r, hi, lo, t);
    LastStarterDecides(t, i, hi * TWO64 + lo);
    if i == 0 {
      return NO_INFO;
    }
    var e := r[i - 1];
    RowV6Compare(t[i - 1], hi, lo);
    RowInfo(t[i - 1].cc, t[i - 1].flags);
    info := if !Less128(e.endHi, e.endLo, hi, lo) then InfoFrom(e.cc, e.flags) else NO_INFO;
  }

  /** What a caller of Lookup is told about address a is what the buckets tell. */
  ghost predicate Truthful(info: Info, b: Buckets, a: int) {
    Tells(b, a, info.country, info.hosting, info.tor) && info.anonymous == (info.hosting || info.tor)
  }

  /** A table entry, read through Info, tells the truth about the ranges it was built from. */
  lemma RepresentedIsTruthful(t: seq<Segment>, b: Buckets, a: int)
    requires Represents(t, Intervals(b))
    ensures Truthful(InfoOf(At(t, a)), b, a)
  {
    assert At(t, a) == Meaning(Intervals(b), a);
    MeaningTells(b, a);
  }

  /** What the parsers put in one family's buckets: addresses of the family in order, and two-letter codes. */
  ghost predicate Parsed(b: Buckets, bound: int) {
    && (forall i :: 0 <= i < |b.country| ==> 0 <= b.country[i].lo <= b.country[i].hi < bound)
    && (forall i :: 0 <= i < |b.country| ==>
          var cc := b.country[i].cc; cc == "" || (|cc| == 2 && 'A' <= cc[0] <= 'Z' && 'A' <= cc[1] <= 'Z'))
    && (forall i :: 0 <= i < |b.hosting| ==> 0 <= b.hosting[i].lo <= b.hosting[i].hi < bound)
    && (forall i :: 0 <= i < |b.tor| ==> 0 <= b.tor[i].lo <= b.tor[i].hi < bound)
  }

  /** The table of a family's ranges stays inside that family's bounds, so every row packs. */
  lemma MergedPacks(t: seq<Segment>, b: Buckets, bound: int)
    requires Represents(t, Intervals(b)) && Parsed(b, bound)
    ensures AllPackable(t, bound)
  {
    forall i | 0 <= i < |t| ensures Packable(t[i], bound) {
      AtFinds(t, i, t[i].lo);
      AtFinds(t, i, t[i].hi);
      MeaningTells(b, t[i].lo);
      ToldInBounds(b, bound, t[i].lo);
      ToldInBounds(b, bound, t[i].hi);
    }
  }

  /** An address some bucket covers is one of the family's. */
  lemma ToldInBounds(b: Buckets, bound: int, a: int)
    requires Parsed(b, bound) && Meaning(Intervals(b), a).Some?
    ensures 0 <= a < bound
  {
    var i :| 0 <= i < |Intervals(b)| && Covers(Intervals(b)[i], a);
  }

  /** The generator's whole output path: None when a table has more rows than its 32-bit count can say. */
  method Publish(b4: Buckets, b6: Buckets)
    returns (blob: Option<seq<byte>>, ghost v4: seq<Segment>, ghost v6: seq<Segment>)
    requires Parsed(b4, TWO32) && Parsed(b6, TWO64 * TWO64)
    ensures Represents(v4, Intervals(b4)) && Represents(v6, Intervals(b6))
    ensures AllPackable(v4, TWO32) && AllPackable(v6, TWO64 * TWO64)
    ensures blob.Some? <==> |v4| < TWO32 && |v6| < TWO32
    ensures blob.Some? ==> blob.value == Blob(v4, v6)
  {
    var t4 := MergeFamily(b4);
    var t6 := MergeFamily(b6);
    v4, v6 := t4, t6;
    MergedPacks(t4, b4, TWO32);
    MergedPacks(t6, b6, TWO64 * TWO64);
    if |t4| >= TWO32 || |t6| >= TWO32 {
      return None, v4, v6;
    }
    var out := Serialize(t4, t6);
    blob := Some(out);
  }

  /** The server's side: decodes a blob and looks up one address of each family. */
  method DecodeAndLookup(blob: seq<byte>, ip4: nat, hi: nat, lo: nat, ghost v4: seq<Segment>, ghost v6: seq<Segment>)
    returns (info4: Info, info6: Info)
    requires AllPackable(v4, TWO32) && AllPackable(v6, TWO64 * TWO64) && |v4| < TWO32 && |v6| < TWO32
    requires Ordered(v4) && Ordered(v6) && blob == Blob(v4, v6) && lo < TWO64
    ensures info4 == InfoOf(At(v4, ip4)) && info6 == InfoOf(At(v6, hi * TWO64 + lo))
  {
    var d := Decode(blob);
    BlobRoundTrip(v4, v6, d);
    info4 := LookupV4(d.v4, ip4, v4);
    info6 := LookupV6(d.v6, hi, lo, v6);
  }

  lemma BothTruthful(v4: seq<Segment>, v6: seq<Segment>, b4: Buckets, b6: Buckets, ip4: int, ip6: int)
    requires Represents(v4, Intervals(b4)) && Represents(v6, Intervals(b6))
    ensures Truthful(InfoOf(At(v4, ip4)), b4, ip4) && Truthful(InfoOf(At(v6, ip6)), b6, ip6)
  {
    RepresentedIsTruthful(v4, b4, ip4);
    RepresentedIsTruthful(v6, b6, ip6);
  }

  /** Published by the generator, decoded and searched by the server: what Lookup says of an address of either family is
      what the source ranges say of it. It answers exactly when neither table, and a table is the only normal form of
      its ranges, has more rows than 32 bits count. */
  method PublishedLookup(b4: Buckets, b6: Buckets, ip4: nat, hi: nat, lo: nat)
    returns (ok: bool, info4: Info, info6: Info, ghost v4: seq<Segment>, ghost v6: seq<Segment>)
    requires Parsed(b4, TWO32) && Parsed(b6, TWO64 * TWO64) && lo < TWO64
    ensures Represents(v4, Intervals(b4)) && Represents(v6, Intervals(b6))
    ensures ok <==> |v4| < TWO32 && |v6| < TWO32
    ensures ok ==> Truthful(info4, b4, ip4) && Truthful(info6, b6, hi * TWO64 + lo)
  {
    var blob;
    blob, v4, v6 := Publish(b4, b6);
    ok, info4, info6 := blob.Some?, NO_INFO, NO_INFO;
    if ok {
      info4, info6 := DecodeAndLookup(blob.value, ip4, hi, lo, v4, v6);
      BothTruthful(v4, v6, b4, b6, ip4, hi * TWO64 + lo);
    }
  }
}
