/** C strings: a run of non-NUL bytes closed by one NUL byte, and the two
    loops of hashtable.c that walk them (copy_string and string_equal). */
module CStrings {

  /** An unsigned 8-bit byte (a `char` read as 0..255). */
  type byte = bv8

  /** `s` is a well-formed C string: its only NUL byte is its last one. */
  ghost predicate IsCString(s: seq<byte>) {
    |s| > 0 && s[|s| - 1] == 0 && forall i :: 0 <= i < |s| - 1 ==> s[i] != 0
  }

  type CString = s: seq<byte> | IsCString(s) witness [0]

  /** The characters of `s`, without the terminator (what strlen counts). */
  function Text(s: CString): (t: seq<byte>)
    ensures |t| == |s| - 1 && s == t + [0]
    ensures forall i :: 0 <= i < |t| ==> t[i] != 0
  {
    s[..|s| - 1]
  }

  /** copy_string: count the bytes up to and including the terminator, then
      copy that many bytes into a fresh buffer. The copy is a value of its
      own: nothing the caller later does to `s` can reach it. */
  method CopyString(s: CString) returns (r: CString)
    ensures r == s
    ensures |r| == |s| && Text(r) == Text(s)
  {
    var strLength := 1;
    var i := 0;
    while s[i] != 0
      invariant 0 <= i < |s|
      invariant strLength == i + 1
      decreases |s| - i
    {
      strLength := strLength + 1;
      i := i + 1;
    }
    var copy := new byte[strLength];
    var k := 0;
    while k < strLength
      invariant strLength == |s|
      invariant 0 <= k <= strLength
      invariant copy[..k] == s[..k]
    {
      copy[k] := s[k];
      k := k + 1;
    }
    r := copy[..];
  }

  /** string_equal: walk both strings while neither has reached its
      terminator, stop at the first mismatch, and finally require that both
      ended at the same place. */
  method StringEqual(a: CString, b: CString) returns (eq: bool)
    ensures eq <==> a == b
    ensures eq <==> Text(a) == Text(b)
  {
    var i := 0;
    while a[i] != 0 && b[i] != 0
      invariant 0 <= i < |a| && i < |b|
      invariant a[..i] == b[..i]
      decreases |a| - i
    {
      if a[i] != b[i] {
        assert a[i] != b[i];
        return false;
      }
      i := i + 1;
    }
    eq := a[i] == 0 && b[i] == 0;
    if eq {
      assert a == a[..i] + [0] && b == b[..i] + [0];
    } else {
      assert a[i] != b[i] || |a| != |b|;
    }
  }
}
