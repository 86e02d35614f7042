/**
 * The wire codec of the PCSX2 IPC server: the big-endian decoders of pcsx2/IPC.h
 * (`to8b` … `to64b`), the in-place encoders of pcsx2/IPC.cpp (`from8b` … `from64b`)
 * and the reply constructors `MakeOkIPC` / `MakeFailIPC`.
 */
module WireCodec {

  /** One byte of a request or reply buffer; the source's `char` is read as unsigned. */
  type byte = b: int | 0 <= b < 256

  /** Reply status bytes: 00 = OK, FF = NOT OK. */
  const IPC_OK: byte := 0x00
  const IPC_FAIL: byte := 0xFF

  function Pow256(n: nat): (p: nat)
    ensures p >= 1
  {
    if n == 0 then 1 else 256 * Pow256(n - 1)
  }

  /** The unsigned integer whose big-endian encoding is `s` (the reference definition). */
  function BigEndian(s: seq<byte>): (v: nat)
    ensures v < Pow256(|s|)
  {
    if s == [] then 0 else BigEndian(s[..|s| - 1]) * 256 + s[|s| - 1]
  }

  /** The `n` low-order bytes of `v`, most significant first. */
  function Bytes(v: nat, n: nat): (s: seq<byte>)
    ensures |s| == n
  {
    if n == 0 then [] else Bytes(v / 256, n - 1) + [v % 256]
  }

  /** Encoding a value that fits in `n` bytes and decoding it gives the value back. */
  lemma {:induction false} DecodeEncode(v: nat, n: nat)
    requires v < Pow256(n)
    ensures BigEndian(Bytes(v, n)) == v
  {
    if n > 0 {
      DecodeEncode(v / 256, n - 1);
      var s := Bytes(v, n);
      assert s[..n - 1] == Bytes(v / 256, n - 1);
    }
  }

  /** Decoding `s` and encoding the result in `|s|` bytes gives `s` back: no two byte strings
      of one length decode to the same value. */
  lemma {:induction false} EncodeDecode(s: seq<byte>)
    ensures Bytes(BigEndian(s), |s|) == s
  {
    if s != [] {
      var n := |s|;
      var p := s[..n - 1];
      EncodeDecode(p);
      assert BigEndian(s) == BigEndian(p) * 256 + s[n - 1];
      assert BigEndian(s) / 256 == BigEndian(p) && BigEndian(s) % 256 == s[n - 1];
      assert s == p + [s[n - 1]];
    }
  }

  /** A value below 256^n, written in n + m bytes, is m zero bytes followed by its n-byte form. */
  lemma {:induction false} BytesWiden(v: nat, n: nat, m: nat)
    requires v < Pow256(n)
    ensures Bytes(v, n + m) == seq(m, _ => 0) + Bytes(v, n)
  {
    if n == 0 {
      ZeroBytes(m);
    } else {
      BytesWiden(v / 256, n - 1, m);
      assert n - 1 + m == n + m - 1;
    }
  }

  lemma {:induction false} ZeroBytes(m: nat)
    ensures Bytes(0, m) == seq(m, _ => 0)
  {
    if m > 0 {
      ZeroBytes(m - 1);
      assert seq(m, _ => 0) == seq(m - 1, _ => 0) + [0];
    }
  }

  lemma BigEndianStep(s: seq<byte>, k: nat)
    requires 0 < k <= |s|
    ensures BigEndian(s[..k]) == BigEndian(s[..k - 1]) * 256 + s[k - 1]
  {
    assert s[..k][..k - 1] == s[..k - 1];
  }

  // The decoders read the first N bytes of a buffer (in ParseCommand, a pointer into the
  // request buffer) and combine them with shifts and additions whose ranges are disjoint.

  function To8b(s: seq<byte>): (v: nat)
    requires |s| >= 1
    ensures v == BigEndian(s[..1])
    ensures v < 0x100
  {
    BigEndianStep(s, 1);
    s[0]
  }

  function To16b(s: seq<byte>): (v: nat)
    requires |s| >= 2
    ensures v == BigEndian(s[..2])
    ensures v < 0x1_0000
  {
    BigEndianStep(s, 1);
    BigEndianStep(s, 2);
    s[0] as int * 0x100 + s[1]
  }

  function To32b(s: seq<byte>): (v: nat)
    requires |s| >= 4
    ensures v == BigEndian(s[..4])
    ensures v < 0x1_0000_0000
  {
    BigEndianStep(s, 1);
    BigEndianStep(s, 2);
    BigEndianStep(s, 3);
    BigEndianStep(s, 4);
    s[0] as int * 0x100_0000 + s[1] as int * 0x1_0000 + s[2] as int * 0x100 + s[3]
  }

  function To64b(s: seq<byte>): (v: nat)
    requires |s| >= 8
    ensures v == BigEndian(s[..8])
    ensures v < 0x1_0000_0000_0000_0000
  {
    BigEndianStep(s, 1);
    BigEndianStep(s, 2);
    BigEndianStep(s, 3);
    BigEndianStep(s, 4);
    BigEndianStep(s, 5);
    BigEndianStep(s, 6);
    BigEndianStep(s, 7);
    BigEndianStep(s, 8);
    s[0] as int * 0x100_0000_0000_0000 + s[1] as int * 0x1_0000_0000_0000
      + s[2] as int * 0x100_0000_0000 + s[3] as int * 0x1_0000_0000
      + s[4] as int * 0x100_0000 + s[5] as int * 0x1_0000 + s[6] as int * 0x100 + s[7]
  }

  // Each byte the encoders store is `(res >> 8k) & 0xff`.

  lemma Bytes2(v: nat)
    ensures Bytes(v, 2) == [v / 0x100 % 256, v % 256]
  {
    assert Bytes(v, 2) == Bytes(v / 256, 1) + [v % 256];
  }

  lemma Bytes4(v: nat)
    ensures Bytes(v, 4) == [v / 0x100_0000 % 256, v / 0x1_0000 % 256, v / 0x100 % 256, v % 256]
  {
    var v1, v2, v3 := v / 256, v / 256 / 256, v / 256 / 256 / 256;
    assert Bytes(v, 4) == Bytes(v1, 3) + [v % 256];
    assert Bytes(v1, 3) == Bytes(v2, 2) + [v1 % 256];
    assert Bytes(v2, 2) == Bytes(v3, 1) + [v2 % 256];
    assert v2 == v / 0x1_0000 && v3 == v / 0x100_0000;
  }

  lemma Bytes8(v: nat)
    ensures Bytes(v, 8) == [v / 0x100_0000_0000_0000 % 256, v / 0x1_0000_0000_0000 % 256,
                            v / 0x100_0000_0000 % 256, v / 0x1_0000_0000 % 256,
                            v / 0x100_0000 % 256, v / 0x1_0000 % 256, v / 0x100 % 256, v % 256]
  {
    var hi := v / 0x1_0000_0000;
    Bytes4(v);
    Bytes4(hi);
    BytesSplit4(v);
    assert hi / 0x100_0000 == v / 0x100_0000_0000_0000;
    assert hi / 0x1_0000 == v / 0x1_0000_0000_0000;
    assert hi / 0x100 == v / 0x100_0000_0000;
  }

  lemma BytesSplit4(v: nat)
    ensures Bytes(v, 8) == Bytes(v / 0x1_0000_0000, 4) + Bytes(v, 4)
  {
    var v1, v2, v3, v4 := v / 256, v / 256 / 256, v / 256 / 256 / 256, v / 256 / 256 / 256 / 256;
    assert Bytes(v, 8) == Bytes(v1, 7) + [v % 256];
    assert Bytes(v1, 7) == Bytes(v2, 6) + [v1 % 256];
    assert Bytes(v2, 6) == Bytes(v3, 5) + [v2 % 256];
    assert Bytes(v3, 5) == Bytes(v4, 4) + [v3 % 256];
    assert v4 == v / 0x1_0000_0000;
    assert Bytes(v, 4) == Bytes(v1, 3) + [v % 256];
    assert Bytes(v1, 3) == Bytes(v2, 2) + [v1 % 256];
    assert Bytes(v2, 2) == Bytes(v3, 1) + [v2 % 256];
  }

  /** `from8b(res_array, res, i)`: stores the byte `res` at index `i`. */
  method From8b(a: array<byte>, v: nat, i: nat)
    requires v < 0x100
    requires i + 1 <= a.Length
    modifies a
    ensures a[i..i + 1] == Bytes(v, 1)
    ensures forall k :: 0 <= k < a.Length && k != i ==> a[k] == old(a[k])
    ensures To8b(a[i..]) == v
  {
    a[i] := v % 256;
    DecodeEncode(v, 1);
  }

  /** `from16b(res_array, res, i)`: stores `res` big-endian at indices i, i+1. */
  method From16b(a: array<byte>, v: nat, i: nat)
    requires v < 0x1_0000
    requires i + 2 <= a.Length
    modifies a
    ensures a[i..i + 2] == Bytes(v, 2)
    ensures forall k :: 0 <= k < a.Length && !(i <= k < i + 2) ==> a[k] == old(a[k])
    ensures To16b(a[i..]) == v
  {
    a[i] := v / 0x100 % 256;
    a[i + 1] := v % 256;
    Bytes2(v);
    assert a[i..][..2] == a[i..i + 2];
    DecodeEncode(v, 2);
  }

  /** `from32b(res_array, res, i)`: stores `res` big-endian at indices i .. i+3. */
  method From32b(a: array<byte>, v: nat, i: nat)
    requires v < 0x1_0000_0000
    requires i + 4 <= a.Length
    modifies a
    ensures a[i..i + 4] == Bytes(v, 4)
    ensures forall k :: 0 <= k < a.Length && !(i <= k < i + 4) ==> a[k] == old(a[k])
    ensures To32b(a[i..]) == v
  {
    a[i] := v / 0x100_0000 % 256;
    a[i + 1] := v / 0x1_0000 % 256;
    a[i + 2] := v / 0x100 % 256;
    a[i + 3] := v % 256;
    Bytes4(v);
    assert a[i..][..4] == a[i..i + 4];
    DecodeEncode(v, 4);
  }

  /** `from64b(res_array, res, i)`: stores `res` big-endian at indices i .. i+7. */
  method From64b(a: array<byte>, v: nat, i: nat)
    requires v < 0x1_0000_0000_0000_0000
    requires i + 8 <= a.Length
    modifies a
    ensures a[i..i + 8] == Bytes(v, 8)
    ensures forall k :: 0 <= k < a.Length && !(i <= k < i + 8) ==> a[k] == old(a[k])
    ensures To64b(a[i..]) == v
  {
    a[i] := v / 0x100_0000_0000_0000 % 256;
    a[i + 1] := v / 0x1_0000_0000_0000 % 256;
    a[i + 2] := v / 0x100_0000_0000 % 256;
    a[i + 3] := v / 0x1_0000_0000 % 256;
    a[i + 4] := v / 0x100_0000 % 256;
    a[i + 5] := v / 0x1_0000 % 256;
    a[i + 6] := v / 0x100 % 256;
    a[i + 7] := v % 256;
    Bytes8(v);
    assert a[i..i + 8] == [a[i], a[i + 1], a[i + 2], a[i + 3], a[i + 4], a[i + 5], a[i + 6], a[i + 7]];
    assert a[i..][..8] == a[i..i + 8];
    DecodeEncode(v, 8);
  }

  /** `MakeOkIPC(size)`: a fresh reply buffer of `size` bytes whose status byte is OK.
      The other bytes are left as `malloc` returns them; nothing is promised about them. */
  method MakeOkIPC(size: nat) returns (r: array<byte>)
    requires size >= 1
    ensures fresh(r) && r.Length == size && r[0] == IPC_OK
  {
    r := new byte[size];
    r[0] := IPC_OK;
  }

  /** `MakeFailIPC(size)`: a fresh reply buffer of `size` bytes whose status byte is FAIL. */
  method MakeFailIPC(size: nat) returns (r: array<byte>)
    requires size >= 1
    ensures fresh(r) && r.Length == size && r[0] == IPC_FAIL
  {
    r := new byte[size];
    r[0] := IPC_FAIL;
  }

  /** A byte that `from64b` stores past the end of its buffer. */
  datatype Spill = Spill(index: nat, value: byte)

  /** `from64b(res_array, res, i)` as the C++ runs it on a buffer of `|buf|` bytes, with no
      check that `i + 8` fits: the stores that land inside the buffer give the new buffer,
      the others land in whatever memory follows it and are returned as spills. */
  function From64bUnchecked(buf: seq<byte>, v: nat, i: nat): (r: (seq<byte>, seq<Spill>))
    requires v < 0x1_0000_0000_0000_0000
    requires i <= |buf|
    ensures |r.0| == |buf|
    ensures forall k :: 0 <= k < |buf| ==>
              r.0[k] == if i <= k < i + 8 then Bytes(v, 8)[k - i] else buf[k]
    ensures |r.1| == if i + 8 <= |buf| then 0 else i + 8 - |buf|
    ensures forall k :: 0 <= k < |r.1| ==> r.1[k] == Spill(|buf| + k, Bytes(v, 8)[|buf| - i + k])
  {
    var enc := Bytes(v, 8);
    var inside := if i + 8 <= |buf| then 8 else |buf| - i;
    (buf[..i] + enc[..inside] + buf[i + inside..],
     seq(8 - inside, k requires 0 <= k < 8 - inside => Spill(i + inside + k, enc[inside + k])))
  }

  /** The ReadWord reply as written (IPC.cpp:204): `from64b` on the 5-byte buffer of
      `MakeOkIPC(5)` at offset 1, with the 32-bit value widened to 64 bits. The four
      payload bytes the client receives are the zero high half of the widened value, and the
      value itself is stored in the four bytes after the buffer. */
  lemma ReadWordAsWritten(v: nat, fresh5: seq<byte>)
    requires v < 0x1_0000_0000
    requires |fresh5| == 5 && fresh5[0] == IPC_OK
    ensures From64bUnchecked(fresh5, v, 1).0 == [IPC_OK, 0, 0, 0, 0]
    ensures To32b(From64bUnchecked(fresh5, v, 1).0[1..]) == 0
    ensures From64bUnchecked(fresh5, v, 1).1
         == [Spill(5, Bytes(v, 4)[0]), Spill(6, Bytes(v, 4)[1]),
             Spill(7, Bytes(v, 4)[2]), Spill(8, Bytes(v, 4)[3])]
  {
    BytesWiden(v, 4, 4);
    assert Pow256(4) == 0x1_0000_0000;
    var r := From64bUnchecked(fresh5, v, 1);
    assert r.0 == [IPC_OK, 0, 0, 0, 0];
    assert r.0[1..][..4] == [0, 0, 0, 0];
  }
}
