/** hash_string: the 64-bit FNV-1a hash of the draft "The FNV Non-Cryptographic
    Hash Algorithm" (draft-eastlake-fnv), section 2, with the 64-bit offset
    basis and prime of its sections 2.1 and 2.2. `size_t` is 64 bits wide, so
    the multiplication wraps modulo 2^64, which `bv64` does by itself. */
module Hashing {
  import opened CStrings

  const FNV_OFFSET_BASIS: bv64 := 0xcbf29ce484222325
  const FNV_PRIME: bv64 := 0x100000001b3

  /** One round: mix in one byte, then multiply. */
  function Step(h: bv64, b: byte): bv64 {
    (h ^ (b as bv64)) * FNV_PRIME
  }

  /** The rolling hash continued from accumulator `h` over `bytes`, first byte first. */
  function FnvFrom(h: bv64, bytes: seq<byte>): bv64
    decreases |bytes|
  {
    if bytes == [] then h else FnvFrom(Step(h, bytes[0]), bytes[1..])
  }

  /** FNV-1a of a byte string. */
  function Fnv1a(bytes: seq<byte>): bv64 {
    FnvFrom(FNV_OFFSET_BASIS, bytes)
  }

  /** The hash of a key: FNV-1a over its characters, the terminator excluded. */
  function Hash(key: CString): bv64 {
    Fnv1a(Text(key))
  }

  /** Appending a byte costs one more round on the hash so far: the hash is a
      left fold of Step over the bytes. */
  lemma {:induction false} FnvFromSnoc(h: bv64, bytes: seq<byte>, b: byte)
    ensures FnvFrom(h, bytes + [b]) == Step(FnvFrom(h, bytes), b)
    decreases |bytes|
  {
    if bytes == [] {
      assert bytes + [b] == [b];
      assert [b][1..] == [];
    } else {
      assert (bytes + [b])[1..] == bytes[1..] + [b];
      FnvFromSnoc(Step(h, bytes[0]), bytes[1..], b);
    }
  }

  lemma Fnv1aSnoc(bytes: seq<byte>, b: byte)
    ensures Fnv1a(bytes + [b]) == Step(Fnv1a(bytes), b)
  {
    FnvFromSnoc(FNV_OFFSET_BASIS, bytes, b);
  }

  /** The draft's test vectors for FNV-1a with 64 bits: the empty string and "a". */
  lemma Fnv1aTestVectors()
    ensures Fnv1a([]) == 0xcbf29ce484222325
    ensures Fnv1a([97]) == 0xaf63dc4c8601ec8c
  {
  }

  /** The hash of a key as the unsigned number `size_t` holds. */
  function HashCode(key: CString): (n: nat)
    ensures n < 0x1_0000_0000_0000_0000
  {
    Hash(key) as int
  }

  /** hash_string with the loop stopping at the terminator. */
  method HashString(str: CString) returns (hash: bv64)
    ensures hash == Hash(str)
  {
    hash := FNV_OFFSET_BASIS;
    var i := 0;
    while str[i] != 0
      invariant 0 <= i < |str|
      invariant FnvFrom(hash, Text(str)[i..]) == Hash(str)
      decreases |str| - i
    {
      ghost var rest := Text(str)[i..];
      assert rest[0] == str[i] && rest[1..] == Text(str)[i + 1..];
      hash := Step(hash, str[i]);
      i := i + 1;
    }
    assert Text(str)[i..] == [];
  }

  // The loop of hash_string as written tests `str` itself instead of the
  // byte `*str`. A character pointer is modelled as null or as an offset into
  // the key's storage; `str++` moves it one byte on.

  datatype CharPtr = Null | At(offset: nat)

  function Advance(p: CharPtr): CharPtr {
    match p
    case Null => Null
    case At(o) => At(o + 1)
  }

  /** The pointer after `n` rounds of `str++`. */
  function AdvanceBy(p: CharPtr, n: nat): CharPtr {
    if n == 0 then p else Advance(AdvanceBy(p, n - 1))
  }

  /** The guard as written: `str != NULL`. */
  predicate GuardAsWritten(p: CharPtr) {
    p != Null
  }

  /** The intended guard: `*str != '\0'`, for a pointer into `s`. */
  predicate GuardIntended(s: CString, p: CharPtr)
    requires p.At? && p.offset < |s|
  {
    s[p.offset] != 0
  }

  /** However long the loop as written has run, its guard still holds, so it
      runs again and reads the byte at `n`; for the empty key "" the second
      round (n == 1) already reads past the one byte of storage, where the
      intended guard stops before the first round. */
  lemma {:induction false} AsWrittenNeverStops(s: CString, n: nat)
    ensures AdvanceBy(At(0), n) == At(n) && GuardAsWritten(AdvanceBy(At(0), n))
    ensures n >= |s| ==> AdvanceBy(At(0), n).offset >= |s|
    ensures s == [0] ==> !GuardIntended(s, At(0))
  {
    if n > 0 {
      AsWrittenNeverStops(s, n - 1);
    }
  }
}
