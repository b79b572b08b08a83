/** Byte-level encoding of the employee records stored in the index.

    A C++ `int` is modelled as `Int32` and written, as the source's `memcpy`
    does on a little-endian host, as four bytes, least significant first,
    in two's complement. A record is laid out as
      id(4) | manager_id(4) | name_len(4) | name | bio_len(4) | bio
    with no padding (classes.h:31-46).
 */
module Codec {

  type Byte = b: int | 0 <= b < 256

  const TwoTo31: int := 0x8000_0000
  const TwoTo32: int := 0x1_0000_0000

  /** The values of a C++ 32-bit `int`. */
  type Int32 = x: int | -TwoTo31 <= x < TwoTo31

  datatype Option<T> = None | Some(value: T)

  // ---------------------------------------------------------------------
  // 32-bit integers
  // ---------------------------------------------------------------------

  /** Four little-endian bytes of an unsigned 32-bit value. */
  function EncodeU32(u: int): (bs: seq<Byte>)
    requires 0 <= u < TwoTo32
    ensures |bs| == 4
  {
    [u % 256, (u / 256) % 256, ((u / 256) / 256) % 256, ((u / 256) / 256) / 256]
  }

  /** The unsigned value of the four bytes at `at`. */
  function DecodeU32(s: seq<Byte>, at: int): (u: int)
    requires 0 <= at && at + 4 <= |s|
    ensures 0 <= u < TwoTo32
  {
    (s[at] as int) + 0x100 * (s[at + 1] as int) + 0x1_0000 * (s[at + 2] as int)
    + 0x100_0000 * (s[at + 3] as int)
  }

  /** Bit pattern of a signed value (two's complement). */
  function ToUnsigned(x: Int32): (u: int)
    ensures 0 <= u < TwoTo32
  {
    if x < 0 then x + TwoTo32 else x
  }

  /** Signed value of a 32-bit pattern (two's complement). */
  function ToSigned(u: int): (x: Int32)
    requires 0 <= u < TwoTo32
    ensures ToUnsigned(x) == u
  {
    if u < TwoTo31 then u else u - TwoTo32
  }

  /** The conversion `int n = s.size()` of the source: the low 32 bits of
      `n` read as a signed value. */
  function Narrow(n: nat): (x: Int32)
    ensures ToUnsigned(x) == n % TwoTo32
    ensures n < TwoTo31 ==> x == n
  {
    ToSigned(n % TwoTo32)
  }

  function EncodeInt32(x: Int32): (bs: seq<Byte>)
    ensures |bs| == 4
  {
    EncodeU32(ToUnsigned(x))
  }

  function DecodeInt32(s: seq<Byte>, at: int): Int32
    requires 0 <= at && at + 4 <= |s|
  {
    ToSigned(DecodeU32(s, at))
  }

  lemma {:induction false} DecodeEncodeU32(u: int)
    requires 0 <= u < TwoTo32
    ensures DecodeU32(EncodeU32(u), 0) == u
  {
    var u1 := u / 256;
    var u2 := u1 / 256;
    assert u == u % 256 + 256 * u1;
    assert u1 == u1 % 256 + 256 * u2;
    assert u2 == u2 % 256 + 256 * (u2 / 256);
  }

  lemma {:induction false} EncodeDecodeU32(s: seq<Byte>, at: int)
    requires 0 <= at && at + 4 <= |s|
    ensures EncodeU32(DecodeU32(s, at)) == s[at..at + 4]
  {
    var u := DecodeU32(s, at);
    var b0, b1, b2, b3: int := s[at], s[at + 1], s[at + 2], s[at + 3];
    var u1 := b1 + 0x100 * b2 + 0x1_0000 * b3;
    var u2 := b2 + 0x100 * b3;
    assert u == b0 + 256 * u1;
    assert u1 == b1 + 256 * u2;
    assert u2 == b2 + 256 * b3;
    DivModByte(u, u1, s[at]);
    DivModByte(u1, u2, s[at + 1]);
    DivModByte(u2, s[at + 3], s[at + 2]);
  }

  /** Quotient and remainder by 256 are unique. */
  lemma {:induction false} DivModByte(x: int, q: int, r: int)
    requires 0 <= r < 256 && x == 256 * q + r
    ensures x / 256 == q && x % 256 == r
  {
  }

  /** Reading back four bytes written from a signed value gives the value:
      the decoder is a left inverse of the encoder on every `Int32`. */
  lemma {:induction false} DecodeEncodeInt32(s: seq<Byte>, at: int, x: Int32)
    requires 0 <= at && at + 4 <= |s|
    requires s[at..at + 4] == EncodeInt32(x)
    ensures DecodeInt32(s, at) == x
  {
    var u := ToUnsigned(x);
    DecodeEncodeU32(u);
    var e := EncodeU32(u);
    assert s[at] == e[0] && s[at + 1] == e[1] && s[at + 2] == e[2] && s[at + 3] == e[3];
    assert DecodeU32(s, at) == DecodeU32(e, 0);
  }

  /** Every four bytes are the encoding of the signed value read from them. */
  lemma {:induction false} EncodeDecodeInt32(s: seq<Byte>, at: int)
    requires 0 <= at && at + 4 <= |s|
    ensures EncodeInt32(DecodeInt32(s, at)) == s[at..at + 4]
  {
    EncodeDecodeU32(s, at);
  }

  // ---------------------------------------------------------------------
  // Records
  // ---------------------------------------------------------------------

  /** An employee record (classes.h:16-19); strings are their bytes. */
  datatype Record = Record(id: Int32, managerId: Int32, name: seq<Byte>, bio: seq<Byte>)

  /** `get_size`: three 4-byte ints, the name, one more int and the bio
      (classes.h:31-33). */
  function Size(r: Record): nat
  {
    4 + 4 + 4 + |r.name| + 4 + |r.bio|
  }

  /** The string lengths survive the narrowing to `int` in `serialize`. */
  predicate LengthsFit(r: Record)
  {
    |r.name| < TwoTo31 && |r.bio| < TwoTo31
  }

  /** `serialize` (classes.h:35-46): id, manager id, name length, name,
      bio length and bio, back to back. Its length is exactly `get_size`,
      the equality the page-capacity test relies on. */
  function Serialize(r: Record): (bs: seq<Byte>)
    ensures |bs| == Size(r)
  {
    EncodeInt32(r.id) + EncodeInt32(r.managerId)
    + EncodeInt32(Narrow(|r.name|)) + r.name
    + EncodeInt32(Narrow(|r.bio|)) + r.bio
  }

  /** The record decoder inlined in `read_from_data_file` (classes.h:153-187):
      reads one record starting at `off` of `b`. The source reads through a
      raw pointer; here a negative length or a read past the end of `b`,
      undefined behaviour in the source, gives `None`. The record comes back
      through `to_string`/`stoi` there, which is the identity on `int`. */
  function DecodeAt(b: seq<Byte>, off: int): (res: Option<Record>)
    ensures res.Some? ==> 0 <= off && off + Size(res.value) <= |b| && LengthsFit(res.value)
  {
    if off < 0 || off + 12 > |b| then None
    else
      var id := DecodeInt32(b, off);
      var managerId := DecodeInt32(b, off + 4);
      var nameLen := DecodeInt32(b, off + 8);
      if nameLen < 0 || off + 16 + nameLen > |b| then None
      else
        var bioLen := DecodeInt32(b, off + 12 + nameLen);
        if bioLen < 0 || off + 16 + nameLen + bioLen > |b| then None
        else
          Some(Record(id, managerId, b[off + 12..off + 12 + nameLen],
                      b[off + 16 + nameLen..off + 16 + nameLen + bioLen]))
  }

  /** Decode then encode: a record read at `off` re-serializes to exactly
      the bytes it was read from. */
  lemma {:induction false} DecodedReserializes(b: seq<Byte>, off: int)
    requires DecodeAt(b, off).Some?
    ensures var r := DecodeAt(b, off).value;
            b[off..off + Size(r)] == Serialize(r)
  {
    var r := DecodeAt(b, off).value;
    DecodeAtFields(b, off);
    FieldsReserialize(b, off, r);
  }

  /** What `DecodeAt` read, field by field. */
  lemma {:induction false} DecodeAtFields(b: seq<Byte>, off: int)
    requires DecodeAt(b, off).Some?
    ensures var r, n, m := DecodeAt(b, off).value, |DecodeAt(b, off).value.name|, |DecodeAt(b, off).value.bio|;
            && 0 <= off && off + 16 + n + m <= |b|
            && r.id == DecodeInt32(b, off) && r.managerId == DecodeInt32(b, off + 4)
            && DecodeInt32(b, off + 8) == n && DecodeInt32(b, off + 12 + n) == m
            && r.name == b[off + 12..off + 12 + n]
            && r.bio == b[off + 16 + n..off + 16 + n + m]
  {
  }

  /** Fields read from `b` at `off` re-serialize to the bytes they came from. */
  lemma {:induction false} FieldsReserialize(b: seq<Byte>, off: int, r: Record)
    requires 0 <= off && off + 16 + |r.name| + |r.bio| <= |b|
    requires r.id == DecodeInt32(b, off) && r.managerId == DecodeInt32(b, off + 4)
    requires DecodeInt32(b, off + 8) == |r.name| && DecodeInt32(b, off + 12 + |r.name|) == |r.bio|
    requires r.name == b[off + 12..off + 12 + |r.name|]
    requires r.bio == b[off + 16 + |r.name|..off + 16 + |r.name| + |r.bio|]
    ensures b[off..off + Size(r)] == Serialize(r)
  {
    var n, m := |r.name|, |r.bio|;
    EncodeDecodeInt32(b, off);
    EncodeDecodeInt32(b, off + 4);
    EncodeDecodeInt32(b, off + 8);
    EncodeDecodeInt32(b, off + 12 + n);
    assert Narrow(n) == n && Narrow(m) == m;
    SixSlices(b, off, off + 4, off + 8, off + 12, off + 12 + n, off + 16 + n, off + Size(r),
              EncodeInt32(r.id), EncodeInt32(r.managerId), EncodeInt32(Narrow(|r.name|)), r.name,
              EncodeInt32(Narrow(|r.bio|)), r.bio);
  }

  /** A region cut at five points into six known pieces is those pieces
      back to back. */
  lemma {:induction false} SixSlices<T>(b: seq<T>, p0: int, p1: int, p2: int, p3: int, p4: int, p5: int, p6: int,
                     a1: seq<T>, a2: seq<T>, a3: seq<T>, a4: seq<T>, a5: seq<T>, a6: seq<T>)
    requires 0 <= p0 <= p1 <= p2 <= p3 <= p4 <= p5 <= p6 <= |b|
    requires b[p0..p1] == a1 && b[p1..p2] == a2 && b[p2..p3] == a3
    requires b[p3..p4] == a4 && b[p4..p5] == a5 && b[p5..p6] == a6
    ensures b[p0..p6] == a1 + a2 + a3 + a4 + a5 + a6
  {
    assert b[p0..p6] == b[p0..p1] + b[p1..p2] + b[p2..p3] + b[p3..p4] + b[p4..p5] + b[p5..p6];
  }

  /** Encode then decode: a record whose bytes sit at `off` is read back
      unchanged, whatever surrounds it. */
  lemma {:induction false} DecodeSerialized(b: seq<Byte>, off: int, r: Record)
    requires LengthsFit(r)
    requires 0 <= off && off + Size(r) <= |b|
    requires b[off..off + Size(r)] == Serialize(r)
    ensures DecodeAt(b, off) == Some(r)
  {
    var n := |r.name|;
    var m := |r.bio|;
    SerializedFieldsAt(b, off, r);
    DecodeEncodeInt32(b, off, r.id);
    DecodeEncodeInt32(b, off + 4, r.managerId);
    DecodeEncodeInt32(b, off + 8, n);
    DecodeEncodeInt32(b, off + 12 + n, m);
    DecodeFields(b, off, r.id, r.managerId, r.name, r.bio);
  }

  /** Where each field of a record serialized at `off` sits in `b`. */
  lemma {:induction false} SerializedFieldsAt(b: seq<Byte>, off: int, r: Record)
    requires LengthsFit(r)
    requires 0 <= off && off + Size(r) <= |b|
    requires b[off..off + Size(r)] == Serialize(r)
    ensures b[off..off + 4] == EncodeInt32(r.id)
    ensures b[off + 4..off + 8] == EncodeInt32(r.managerId)
    ensures b[off + 8..off + 12] == EncodeInt32(|r.name|)
    ensures b[off + 12..off + 12 + |r.name|] == r.name
    ensures b[off + 12 + |r.name|..off + 16 + |r.name|] == EncodeInt32(|r.bio|)
    ensures b[off + 16 + |r.name|..off + 16 + |r.name| + |r.bio|] == r.bio
  {
    var n := |r.name|;
    var m := |r.bio|;
    var s := Serialize(r);
    SerializeFields(r);
    SliceOfSlice(b, off, s, 0, 4);
    SliceOfSlice(b, off, s, 4, 8);
    SliceOfSlice(b, off, s, 8, 12);
    SliceOfSlice(b, off, s, 12, 12 + n);
    SliceOfSlice(b, off, s, 12 + n, 16 + n);
    SliceOfSlice(b, off, s, 16 + n, 16 + n + m);
  }

  /** Bytes holding the four integers and two strings of a record where
      `DecodeAt` looks for them decode to that record. */
  lemma {:induction false} DecodeFields(b: seq<Byte>, off: int, id: Int32, managerId: Int32,
                                        name: seq<Byte>, bio: seq<Byte>)
    requires 0 <= off && off + 16 + |name| + |bio| <= |b|
    requires DecodeInt32(b, off) == id && DecodeInt32(b, off + 4) == managerId
    requires DecodeInt32(b, off + 8) == |name| && DecodeInt32(b, off + 12 + |name|) == |bio|
    requires b[off + 12..off + 12 + |name|] == name
    requires b[off + 16 + |name|..off + 16 + |name| + |bio|] == bio
    ensures DecodeAt(b, off) == Some(Record(id, managerId, name, bio))
  {
  }

  /** Where each field sits in `Serialize(r)`. */
  lemma {:induction false} SerializeFields(r: Record)
    requires LengthsFit(r)
    ensures Serialize(r)[0..4] == EncodeInt32(r.id)
    ensures Serialize(r)[4..8] == EncodeInt32(r.managerId)
    ensures Serialize(r)[8..12] == EncodeInt32(|r.name|)
    ensures Serialize(r)[12..12 + |r.name|] == r.name
    ensures Serialize(r)[12 + |r.name|..16 + |r.name|] == EncodeInt32(|r.bio|)
    ensures Serialize(r)[16 + |r.name|..16 + |r.name| + |r.bio|] == r.bio
  {
    assert Narrow(|r.name|) == |r.name| && Narrow(|r.bio|) == |r.bio|;
  }

  /** A slice of a region equal to `s` is the matching slice of `s`. */
  lemma {:induction false} SliceOfSlice<T>(b: seq<T>, off: int, s: seq<T>, i: int, j: int)
    requires 0 <= off && off + |s| <= |b| && b[off..off + |s|] == s
    requires 0 <= i <= j <= |s|
    ensures b[off + i..off + j] == s[i..j]
  {
    forall k | i <= k < j
      ensures b[off + k] == s[k]
    {
      assert s[k] == b[off..off + |s|][k];
    }
  }

  // ---------------------------------------------------------------------
  // Sequences of records packed back to back
  // ---------------------------------------------------------------------

  /** Sum of `get_size` over `rs`: the offset the next record is given. */
  function SumSizes(rs: seq<Record>): nat
  {
    if |rs| == 0 then 0 else SumSizes(rs[..|rs| - 1]) + Size(rs[|rs| - 1])
  }

  /** The records serialized one after another from offset 0. */
  function Data(rs: seq<Record>): (bs: seq<Byte>)
    ensures |bs| == SumSizes(rs)
  {
    if |rs| == 0 then [] else Data(rs[..|rs| - 1]) + Serialize(rs[|rs| - 1])
  }

  /** Record `i` occupies bytes [SumSizes(rs[..i]), SumSizes(rs[..i+1])) of
      the packed data. */
  lemma {:induction false} RecordInData(rs: seq<Record>, i: nat)
    requires i < |rs|
    ensures SumSizes(rs[..i]) + Size(rs[i]) <= SumSizes(rs)
    ensures Data(rs)[SumSizes(rs[..i])..SumSizes(rs[..i]) + Size(rs[i])] == Serialize(rs[i])
    decreases |rs|
  {
    var n := |rs| - 1;
    if i < n {
      RecordInData(rs[..n], i);
      EarlierRecordInData(rs, i);
    } else {
      LastRecordInData(rs);
    }
  }

  /** Appending a record leaves the bytes of the earlier records in place. */
  lemma {:induction false} EarlierRecordInData(rs: seq<Record>, i: nat)
    requires i < |rs| - 1
    requires SumSizes(rs[..|rs| - 1][..i]) + Size(rs[..|rs| - 1][i]) <= SumSizes(rs[..|rs| - 1])
    requires Data(rs[..|rs| - 1])[SumSizes(rs[..|rs| - 1][..i])..SumSizes(rs[..|rs| - 1][..i]) + Size(rs[..|rs| - 1][i])]
             == Serialize(rs[..|rs| - 1][i])
    ensures SumSizes(rs[..i]) + Size(rs[i]) <= SumSizes(rs)
    ensures Data(rs)[SumSizes(rs[..i])..SumSizes(rs[..i]) + Size(rs[i])] == Serialize(rs[i])
  {
    var n := |rs| - 1;
    var init := rs[..n];
    var a, b := SumSizes(rs[..i]), Size(rs[i]);
    assert init[..i] == rs[..i];
    SliceOfFirst(Data(init), Serialize(rs[n]), a, a + b, Serialize(rs[i]));
  }

  /** The last record's bytes end the packed data. */
  lemma {:induction false} LastRecordInData(rs: seq<Record>)
    requires |rs| > 0
    ensures SumSizes(rs[..|rs| - 1]) + Size(rs[|rs| - 1]) <= SumSizes(rs)
    ensures Data(rs)[SumSizes(rs[..|rs| - 1])..SumSizes(rs[..|rs| - 1]) + Size(rs[|rs| - 1])]
            == Serialize(rs[|rs| - 1])
  {
    var n := |rs| - 1;
    SliceOfSecond(Data(rs[..n]), Serialize(rs[n]), SumSizes(rs[..n]), SumSizes(rs[..n]) + Size(rs[n]));
  }

  /** A slice inside the first part of a concatenation. */
  lemma {:induction false} SliceOfFirst<T>(x: seq<T>, y: seq<T>, i: int, j: int, z: seq<T>)
    requires 0 <= i <= j <= |x| && x[i..j] == z
    ensures (x + y)[i..j] == z
  {
  }

  /** The second part of a concatenation, as a slice. */
  lemma {:induction false} SliceOfSecond<T>(x: seq<T>, y: seq<T>, i: int, j: int)
    requires i == |x| && j == |x| + |y|
    ensures (x + y)[i..j] == y
  {
  }

  /** A suffix split in two at `j`. */
  lemma {:induction false} SplitSuffix<T>(f: seq<T>, i: int, j: int)
    requires 0 <= i <= j <= |f|
    ensures f[i..] == f[i..j] + f[j..]
  {
  }

  /** A prefix extended into the second part of a concatenation. */
  lemma {:induction false} PrefixIntoSecond<T>(x: seq<T>, y: seq<T>, i: int)
    requires 0 <= i <= |y|
    ensures (x + y)[..|x| + i] == x + y[..i]
  {
  }

  // ---------------------------------------------------------------------
  // Records read back with their last bytes zeroed
  // ---------------------------------------------------------------------

  function Zeros(n: nat): (z: seq<Byte>)
    ensures |z| == n && forall k :: 0 <= k < n ==> z[k] == 0
  {
    seq(n, _ => 0)
  }

  /** `r` as it reads back when the last `k` bytes of its serialized form
      were overwritten with zeros: the last `k` bytes of the bio, or the
      whole bio when it is shorter (the bytes before it are then the high
      bytes of the bio length, zero already). */
  function ZeroTail(r: Record, k: nat): (z: Record)
    ensures z.id == r.id && z.managerId == r.managerId && z.name == r.name
    ensures |z.bio| == |r.bio| && Size(z) == Size(r)
  {
    var j := if k <= |r.bio| then k else |r.bio|;
    r.(bio := r.bio[..|r.bio| - j] + Zeros(j))
  }

  /** `r2` is `r` with at most `bound` trailing bytes read back as zero. */
  ghost predicate KeptUpTo(r2: Record, r: Record, bound: int)
  {
    exists k: nat :: k <= bound && r2 == ZeroTail(r, k)
  }

  /** Zeroing the last `k <= 4` bytes of the serialized record is zeroing
      the tail of its bio, as `ZeroTail` does. */
  lemma {:induction false} ZeroTailSerialize(r: Record, k: nat)
    requires LengthsFit(r) && k <= 4
    ensures Serialize(ZeroTail(r, k)) == Serialize(r)[..Size(r) - k] + Zeros(k)
  {
    var n, m := |r.name|, |r.bio|;
    var head := EncodeInt32(r.id) + EncodeInt32(r.managerId) + EncodeInt32(Narrow(n)) + r.name;
    var len := EncodeInt32(Narrow(m));
    var z := ZeroTail(r, k);
    var s := Serialize(r);
    var t := Serialize(z);
    assert s == head + len + r.bio;
    assert t == head + len + z.bio;
    var rhs := s[..Size(r) - k] + Zeros(k);
    if k > m {
      SmallEncode(m);
    }
    forall i | 0 <= i < Size(r)
      ensures t[i] == rhs[i]
    {
      if i < |head| {
        assert t[i] == head[i] == s[i];
      } else if i < |head| + 4 {
        assert t[i] == len[i - |head|] == s[i];
      } else {
        assert t[i] == z.bio[i - |head| - 4];
      }
    }
  }

  /** A length below 256 is written as itself followed by three zeros. */
  lemma {:induction false} SmallEncode(m: nat)
    requires m < 256
    ensures EncodeInt32(Narrow(m)) == [m, 0, 0, 0]
  {
    assert Narrow(m) == m;
  }

  /** Zeroing no byte leaves the record as it is. */
  lemma {:induction false} ZeroTailZero(r: Record)
    ensures ZeroTail(r, 0) == r
    ensures forall bound: int :: 0 <= bound ==> KeptUpTo(r, r, bound)
  {
    assert ZeroTail(r, 0).bio == r.bio[..|r.bio|] + [] == r.bio;
  }

  /** A record read back with its tail zeroed keeps its id, manager id,
      name and size. */
  lemma {:induction false} KeptFields(r2: Record, r: Record, bound: int)
    requires KeptUpTo(r2, r, bound)
    ensures r2.id == r.id && r2.managerId == r.managerId && r2.name == r.name
    ensures Size(r2) == Size(r)
  {
  }

  /** With no byte zeroed the record is unchanged. */
  lemma {:induction false} KeptExactly(r2: Record, r: Record)
    requires KeptUpTo(r2, r, 0)
    ensures r2 == r
  {
    ZeroTailZero(r);
  }

  /** Sizes and packed data of records with one more at the end. */
  lemma {:induction false} SnocData(init: seq<Record>, r: Record)
    ensures (init + [r])[..|init|] == init && (init + [r])[|init|] == r
    ensures SumSizes(init + [r]) == SumSizes(init) + Size(r)
    ensures Data(init + [r]) == Data(init) + Serialize(r)
  {
    assert (init + [r])[..|init|] == init;
  }

  /** Zeroing the same tail twice is zeroing it once. */
  lemma {:induction false} ZeroTailTwice(r: Record, k: nat)
    ensures ZeroTail(ZeroTail(r, k), k) == ZeroTail(r, k)
  {
    var j := if k <= |r.bio| then k else |r.bio|;
    var b := r.bio[..|r.bio| - j] + Zeros(j);
    assert b[..|b| - j] == r.bio[..|r.bio| - j];
  }
}
